/** Whole runs of discovery for one HSMDevice: the grace period of a lost device,
repeated scans, and unique serials.
*/
module DiscoveryRuns {
  import opened Replica
  import opened Discovery

  /** What can happen to one HSMDevice's cache entry. */
  datatype Event =
    | InitialScan(now: int, devices: seq<Device>)
    | Plugged(now: int, usb: UsbDevice, node: string)
    | Unplugged(now: int, usb: UsbDevice)
    | Scan(now: int, devices: seq<Device>)
    | Cleanup(now: int)

  function Step(devices: seq<Device>, e: Event): seq<Device>
  {
    match e
    case InitialScan(now, scan) => scan
    case Plugged(now, usb, node) => Added(devices, Convert(usb, node, now))
    case Unplugged(now, usb) => Removed(devices, usb, now)
    case Scan(now, scan) => Adopted(devices, scan, now)
    case Cleanup(now) => Kept(devices, now)
  }

  function Run(devices: seq<Device>, events: seq<Event>): seq<Device>
  {
    if events == [] then devices else Step(Run(devices, events[..|events| - 1]), events[|events| - 1])
  }

  // ------------------------------------------------------ entries of one key

  function WithKey(devices: seq<Device>, k: string): seq<Device>
  {
    if devices == [] then []
    else
      var last := devices[|devices| - 1];
      WithKey(devices[..|devices| - 1], k) + (if Key(last) == k then [last] else [])
  }

  function LostAt(d: Device, now: int): Device
  {
    if d.available then d.(available := false, lastSeen := now) else d
  }

  function AllLost(devices: seq<Device>, now: int): seq<Device>
  {
    if devices == [] then []
    else AllLost(devices[..|devices| - 1], now) + [LostAt(devices[|devices| - 1], now)]
  }

  lemma WithKeySnoc(devices: seq<Device>, d: Device, k: string)
    ensures WithKey(devices + [d], k) == WithKey(devices, k) + (if Key(d) == k then [d] else [])
  {
    assert (devices + [d])[..|devices|] == devices;
  }

  lemma {:induction false} WithKeyConcat(a: seq<Device>, b: seq<Device>, k: string)
    ensures WithKey(a + b, k) == WithKey(a, k) + WithKey(b, k)
  {
    if b == [] {
      assert a + b == a;
    } else {
      var init, last := b[..|b| - 1], b[|b| - 1];
      assert a + b == (a + init) + [last];
      WithKeySnoc(a + init, last, k);
      WithKeyConcat(a, init, k);
    }
  }

  lemma {:induction false} WithKeyRefreshed(devices: seq<Device>, scan: seq<Device>, now: int, k: string)
    requires !HasKey(scan, k)
    ensures WithKey(AllRefreshed(devices, scan, now), k) == AllLost(WithKey(devices, k), now)
  {
    if devices != [] {
      var init, last := devices[..|devices| - 1], devices[|devices| - 1];
      WithKeyRefreshed(init, scan, now, k);
      WithKeySnoc(AllRefreshed(init, scan, now), Refreshed(last, scan, now), k);
      if Key(last) == k {
        assert (WithKey(init, k) + [last])[..|WithKey(init, k)|] == WithKey(init, k);
      } else {
        assert WithKey(init, k) + [] == WithKey(init, k);
      }
    }
  }

  lemma {:induction false} UnknownKeys(devices: seq<Device>, scan: seq<Device>, k: string)
    requires !HasKey(scan, k) || HasKey(devices, k)
    ensures WithKey(Unknown(devices, scan), k) == []
  {
    if scan != [] {
      var init, last := scan[..|scan| - 1], scan[|scan| - 1];
      assert HasKey(init, k) ==> HasKey(scan, k) by {
        if HasKey(init, k) { var i :| 0 <= i < |init| && Key(init[i]) == k; assert Key(scan[i]) == k; }
      }
      assert Key(scan[|scan| - 1]) == k ==> HasKey(scan, k);
      UnknownKeys(devices, init, k);
      WithKeySnoc(Unknown(devices, init), last.(available := true), k);
      assert Unknown(devices, init) + [] == Unknown(devices, init);
    }
  }

  lemma {:induction false} UntouchedIsLost(devices: seq<Device>, scan: seq<Device>, now: int, k: string)
    requires !HasKey(scan, k) && forall i :: 0 <= i < |devices| ==> !Touched(devices[i], scan)
    ensures AllLost(WithKey(devices, k), now) == WithKey(devices, k)
  {
    if devices != [] {
      var init, last := devices[..|devices| - 1], devices[|devices| - 1];
      assert forall i :: 0 <= i < |init| ==> init[i] == devices[i];
      UntouchedIsLost(init, scan, now, k);
      if Key(last) == k {
        assert !Touched(devices[|devices| - 1], scan);
        assert (WithKey(init, k) + [last])[..|WithKey(init, k)|] == WithKey(init, k);
      } else {
        assert WithKey(init, k) + [] == WithKey(init, k);
      }
    }
  }

  /** A scan that misses a device stamps its entry, unless it is already stamped. */
  lemma MissedScan(devices: seq<Device>, scan: seq<Device>, now: int, k: string)
    requires !HasKey(scan, k)
    ensures WithKey(Adopted(devices, scan, now), k) == AllLost(WithKey(devices, k), now)
  {
    if Changed(devices, scan) {
      WithKeyConcat(AllRefreshed(devices, scan, now), Unknown(devices, scan), k);
      WithKeyRefreshed(devices, scan, now, k);
      UnknownKeys(devices, scan, k);
    } else {
      UntouchedIsLost(devices, scan, now, k);
    }
  }

  lemma KeptSnoc(devices: seq<Device>, d: Device, now: int)
    ensures Kept(devices + [d], now) == Kept(devices, now) + (if Stale(d, now) then [] else [d])
  {
    assert (devices + [d])[..|devices|] == devices;
  }

  lemma {:induction false} KeptWithKey(devices: seq<Device>, now: int, k: string)
    ensures WithKey(Kept(devices, now), k) == Kept(WithKey(devices, k), now)
  {
    if devices != [] {
      var init, last := devices[..|devices| - 1], devices[|devices| - 1];
      KeptWithKey(init, now, k);
      WithKeySnoc(Kept(init, now), last, k);
      KeptSnoc(WithKey(init, k), last, now);
      assert Kept(init, now) + [] == Kept(init, now) && WithKey(init, k) + [] == WithKey(init, k);
    }
  }

  // ------------------------------------------------------ events and an entry

  function UsbKey(u: UsbDevice): string
  {
    if u.serial != "" then SerialKey(u.serial) else PathKey(u.path)
  }

  /** The search for the event's device ends at an entry with key `k`. */
  predicate Hits(devices: seq<Device>, u: UsbDevice, k: string)
  {
    var i := Search(devices, u.serial, u.path);
    i >= 0 && Key(devices[i]) == k
  }

  /** The event leaves the entry of `k` alone, apart from the passing of its grace period. */
  predicate Spares(devices: seq<Device>, e: Event, k: string)
  {
    match e
    case InitialScan(now, scan) => !HasKey(scan, k)
    case Plugged(now, usb, node) => UsbKey(usb) != k && !Hits(devices, usb, k)
    case Unplugged(now, usb) => !Hits(devices, usb, k)
    case Scan(now, scan) => !HasKey(scan, k)
    case Cleanup(now) => true
  }

  lemma WithKeyOne(d: Device, k: string)
    ensures WithKey([d], k) == if Key(d) == k then [d] else []
  {
    assert [d] == [] + [d];
    WithKeySnoc([], d, k);
  }

  lemma WithKeySplit(devices: seq<Device>, i: nat, k: string)
    requires i < |devices|
    ensures WithKey(devices, k) ==
      WithKey(devices[..i], k) + (if Key(devices[i]) == k then [devices[i]] else []) + WithKey(devices[i+1..], k)
  {
    assert devices == (devices[..i] + [devices[i]]) + devices[i+1..];
    WithKeyConcat(devices[..i] + [devices[i]], devices[i+1..], k);
    WithKeySnoc(devices[..i], devices[i], k);
  }

  lemma WithKeyUpdate(devices: seq<Device>, i: nat, d: Device, k: string)
    requires i < |devices|
    ensures WithKey(devices[i := d], k) ==
      WithKey(devices[..i], k) + (if Key(d) == k then [d] else []) + WithKey(devices[i+1..], k)
  {
    var changed := devices[i := d];
    assert changed[..i] == devices[..i] && changed[i+1..] == devices[i+1..];
    WithKeySplit(changed, i, k);
  }

  lemma SparedUpdate(devices: seq<Device>, i: nat, d: Device, k: string)
    requires i < |devices| && Key(devices[i]) != k && Key(d) != k
    ensures WithKey(devices[i := d], k) == WithKey(devices, k)
  {
    WithKeySplit(devices, i, k);
    WithKeyUpdate(devices, i, d, k);
  }

  lemma SparedAdd(devices: seq<Device>, u: UsbDevice, d: Device, k: string)
    requires d.serial == u.serial && d.path == u.path && UsbKey(u) != k && !Hits(devices, u, k)
    ensures WithKey(Added(devices, d), k) == WithKey(devices, k)
  {
    var i := Search(devices, d.serial, d.path);
    if i >= 0 {
      SparedUpdate(devices, i, d, k);
    } else {
      WithKeySnoc(devices, d, k);
      assert WithKey(devices, k) + [] == WithKey(devices, k);
    }
  }

  lemma SparedRemove(devices: seq<Device>, u: UsbDevice, now: int, k: string)
    requires !Hits(devices, u, k)
    ensures WithKey(Removed(devices, u, now), k) == WithKey(devices, k)
  {
    var i := Search(devices, u.serial, u.path);
    if i >= 0 { SparedUpdate(devices, i, devices[i].(available := false, lastSeen := now), k); }
  }

  lemma SparedStep(devices: seq<Device>, e: Event, k: string)
    requires (e.Plugged? || e.Unplugged?) && Spares(devices, e, k)
    ensures WithKey(Step(devices, e), k) == WithKey(devices, k)
  {
    if e.Plugged? {
      SparedAdd(devices, e.usb, Convert(e.usb, e.node, e.now), k);
    } else {
      SparedRemove(devices, e.usb, e.now, k);
    }
  }

  /** The event rewrites the entry with the record it has already. */
  predicate Restates(devices: seq<Device>, e: Event, d: Device)
    requires e.Plugged? || e.Unplugged?
  {
    && Hits(devices, e.usb, Key(d))
    && d == if e.Plugged? then Convert(e.usb, e.node, e.now) else d.(available := false, lastSeen := e.now)
  }

  lemma LoneEntry(devices: seq<Device>, i: nat, k: string, d: Device)
    requires WithKey(devices, k) == [d] && i < |devices| && Key(devices[i]) == k
    ensures devices[i] == d && WithKey(devices[..i], k) == [] && WithKey(devices[i+1..], k) == []
  {
    WithKeySplit(devices, i, k);
    var a, b := WithKey(devices[..i], k), WithKey(devices[i+1..], k);
    assert |a + [devices[i]] + b| == |[d]| == 1;
    assert a == [] && b == [];
    assert (a + [devices[i]] + b)[0] == devices[i];
  }

  lemma {:induction false} WithKeyKeys(devices: seq<Device>, k: string)
    ensures forall d :: d in WithKey(devices, k) ==> Key(d) == k
  {
    if devices != [] { WithKeyKeys(devices[..|devices| - 1], k); }
  }

  /** Exactly when plugging or unplugging a device leaves the one entry of `k` as it is. */
  lemma SparesIff(devices: seq<Device>, e: Event, k: string, d: Device)
    requires (e.Plugged? || e.Unplugged?) && WithKey(devices, k) == [d]
    ensures WithKey(Step(devices, e), k) == [d] <==> Spares(devices, e, k) || Restates(devices, e, d)
  {
    WithKeyKeys(devices, k);
    assert d in WithKey(devices, k);
    if Spares(devices, e, k) {
      SparedStep(devices, e, k);
    } else if Hits(devices, e.usb, k) {
      var i := Search(devices, e.usb.serial, e.usb.path);
      LoneEntry(devices, i, k, d);
      WithKeyUpdate(devices, i, Step(devices, e)[i], k);
      assert Step(devices, e) == devices[i := Step(devices, e)[i]];
    } else {
      SecondEntry(devices, e, k);
    }
  }

  lemma SecondEntry(devices: seq<Device>, e: Event, k: string)
    requires e.Plugged? && UsbKey(e.usb) == k && !Hits(devices, e.usb, k)
    ensures |WithKey(Step(devices, e), k)| == |WithKey(devices, k)| + 1
  {
    var i, d := Search(devices, e.usb.serial, e.usb.path), Convert(e.usb, e.node, e.now);
    if i >= 0 {
      WithKeySplit(devices, i, k);
      WithKeyUpdate(devices, i, d, k);
    } else {
      WithKeySnoc(devices, d, k);
    }
  }

  // ------------------------------------------------------------- grace period

  /** No event of the run touches the entry of `k`, and no scan sees its device. */
  ghost predicate AllSpare(devices: seq<Device>, events: seq<Event>, k: string)
  {
    forall i :: 0 <= i < |events| ==> Spares(Run(devices, events[..i]), events[i], k)
  }

  ghost predicate Ordered(events: seq<Event>)
  {
    forall i, j :: 0 <= i < j < |events| ==> events[i].now <= events[j].now
  }

  function FirstScan(events: seq<Event>): (t: Option<int>)
    ensures t.Some? ==> exists i :: 0 <= i < |events| && events[i].Scan? && events[i].now == t.value
    ensures t.None? ==> forall i :: 0 <= i < |events| ==> !events[i].Scan?
  {
    if events == [] then None
    else
      var init := events[..|events| - 1];
      assert forall i :: 0 <= i < |init| ==> init[i] == events[i];
      if FirstScan(init).Some? then FirstScan(init)
      else if events[|events| - 1].Scan? then Some(events[|events| - 1].now)
      else None
  }

  /** Some cleanup came more than the grace period after `t`. */
  ghost predicate Overdue(events: seq<Event>, t: int)
  {
    exists i :: 0 <= i < |events| && events[i].Cleanup? && events[i].now - t > GRACE_SECONDS
  }

  lemma OverdueSnoc(events: seq<Event>, t: int)
    requires events != []
    ensures Overdue(events, t) <==>
            Overdue(events[..|events| - 1], t)
            || (events[|events| - 1].Cleanup? && events[|events| - 1].now - t > GRACE_SECONDS)
  {
    var init, last := events[..|events| - 1], events[|events| - 1];
    if Overdue(init, t) {
      var i :| 0 <= i < |init| && init[i].Cleanup? && init[i].now - t > GRACE_SECONDS;
      assert events[i] == init[i];
    }
    if Overdue(events, t) {
      var i :| 0 <= i < |events| && events[i].Cleanup? && events[i].now - t > GRACE_SECONDS;
      if i < |init| { assert init[i] == events[i]; }
    }
  }

  /** When the device was stamped lost: at the first scan that missed it. */
  function StampOf(d: Device, events: seq<Event>): Option<int>
  {
    if d.available then FirstScan(events) else Some(d.lastSeen)
  }

  /** A first scan replaces the whole list. */
  predicate Restarted(events: seq<Event>)
  {
    exists i :: 0 <= i < |events| && events[i].InitialScan?
  }

  /** The entry of a device that every scan of the run misses. */
  ghost function Expected(d: Device, events: seq<Event>): seq<Device>
  {
    if Restarted(events) then []
    else
      match StampOf(d, events)
      case None => [d]
      case Some(t) => if Overdue(events, t) then [] else [d.(available := false, lastSeen := t)]
  }

  lemma RestartedSnoc(events: seq<Event>)
    requires events != []
    ensures Restarted(events) <==> Restarted(events[..|events| - 1]) || events[|events| - 1].InitialScan?
  {
    var init := events[..|events| - 1];
    if Restarted(init) {
      var i :| 0 <= i < |init| && init[i].InitialScan?;
      assert events[i].InitialScan?;
    }
    if Restarted(events) {
      var i :| 0 <= i < |events| && events[i].InitialScan?;
      if i < |init| { assert init[i].InitialScan?; }
    }
  }

  lemma NotYetOverdue(events: seq<Event>)
    requires events != [] && Ordered(events) && events[|events| - 1].Scan?
    ensures !Overdue(events, events[|events| - 1].now)
  {}

  lemma ExpectedSnoc(d: Device, events: seq<Event>)
    requires events != [] && Ordered(events)
    ensures var was, last := Expected(d, events[..|events| - 1]), events[|events| - 1];
            Expected(d, events) == match last
              case InitialScan(now, scan) => []
              case Scan(now, scan) => AllLost(was, now)
              case Cleanup(now) => Kept(was, now)
              case _ => was
  {
    var last := events[|events| - 1];
    var stamp := StampOf(d, events);
    RestartedSnoc(events);
    if stamp.Some? { OverdueSnoc(events, stamp.value); }
    if last.Scan? { NotYetOverdue(events); }
  }

  lemma InitOf(devices: seq<Device>, events: seq<Event>, k: string)
    requires events != [] && AllSpare(devices, events, k) && Ordered(events)
    ensures AllSpare(devices, events[..|events| - 1], k) && Ordered(events[..|events| - 1])
    ensures Spares(Run(devices, events[..|events| - 1]), events[|events| - 1], k)
  {
    var init := events[..|events| - 1];
    forall i | 0 <= i < |init| ensures Spares(Run(devices, init[..i]), init[i], k) {
      assert init[..i] == events[..i] && init[i] == events[i];
    }
  }

  lemma {:induction false} NoEntries(devices: seq<Device>, k: string)
    requires !HasKey(devices, k)
    ensures WithKey(devices, k) == []
  {
    if devices != [] {
      var init := devices[..|devices| - 1];
      assert forall i :: 0 <= i < |init| ==> init[i] == devices[i];
      assert Key(devices[|devices| - 1]) != k;
      NoEntries(init, k);
    }
  }

  /** Over every run of scans, cleanups, plug and unplug events and restarts that leave the entry to itself, a
  device missing from every scan is stamped by the first one, keeps that stamp, stays in the cache until a cleanup more
  than five minutes later, and is dropped by the first such cleanup; only a first scan drops it sooner. */
  lemma {:induction false} GraceExact(devices: seq<Device>, events: seq<Event>, k: string, d: Device)
    requires WithKey(devices, k) == [d] && AllSpare(devices, events, k) && Ordered(events)
    ensures WithKey(Run(devices, events), k) == Expected(d, events)
  {
    if events != [] {
      var init, last := events[..|events| - 1], events[|events| - 1];
      InitOf(devices, events, k);
      GraceExact(devices, init, k, d);
      ExpectedSnoc(d, events);
      match last
      case InitialScan(now, scan) => NoEntries(scan, k);
      case Scan(now, scan) => MissedScan(Run(devices, init), scan, now, k);
      case Cleanup(now) => KeptWithKey(Run(devices, init), now, k);
      case _ => SparedStep(Run(devices, init), last, k);
    }
  }

  // -------------------------------------------------- devices that stay visible

  ghost predicate AllAvailable(devices: seq<Device>)
  {
    forall i :: 0 <= i < |devices| ==> devices[i].available
  }

  lemma {:induction false} SeenWithKey(devices: seq<Device>, scan: seq<Device>, now: int, k: string)
    requires HasKey(scan, k)
    ensures |WithKey(AllRefreshed(devices, scan, now), k)| == |WithKey(devices, k)|
    ensures AllAvailable(WithKey(AllRefreshed(devices, scan, now), k))
  {
    if devices != [] {
      var init, last := devices[..|devices| - 1], devices[|devices| - 1];
      SeenWithKey(init, scan, now, k);
      WithKeySnoc(AllRefreshed(init, scan, now), Refreshed(last, scan, now), k);
    }
  }

  lemma {:induction false} WithKeyHas(devices: seq<Device>, k: string)
    ensures WithKey(devices, k) != [] ==> HasKey(devices, k)
  {
    if devices != [] {
      var init, last := devices[..|devices| - 1], devices[|devices| - 1];
      WithKeyHas(init, k);
      if HasKey(init, k) { var i :| 0 <= i < |init| && Key(init[i]) == k; assert Key(devices[i]) == k; }
      if Key(last) == k { assert Key(devices[|devices| - 1]) == k; }
    }
  }

  lemma {:induction false} KeptAvailable(devices: seq<Device>, now: int)
    requires AllAvailable(devices)
    ensures Kept(devices, now) == devices
  {
    if devices != [] { KeptAvailable(devices[..|devices| - 1], now); }
  }

  /** The event leaves an available device of key `k` available: scans see it, it is not unplugged, and no
  other device takes its place. */
  predicate Sees(devices: seq<Device>, e: Event, k: string)
  {
    match e
    case InitialScan(now, scan) => HasKey(scan, k) && forall i :: 0 <= i < |scan| ==> scan[i].available
    case Plugged(now, usb, node) => Hits(devices, usb, k) ==> UsbKey(usb) == k
    case Unplugged(now, usb) => !Hits(devices, usb, k)
    case Scan(now, scan) => HasKey(scan, k)
    case Cleanup(now) => true
  }

  ghost predicate AllSee(devices: seq<Device>, events: seq<Event>, k: string)
  {
    forall i :: 0 <= i < |events| ==> Sees(Run(devices, events[..i]), events[i], k)
  }

  lemma SeenScan(devices: seq<Device>, scan: seq<Device>, now: int, k: string)
    requires HasKey(scan, k) && WithKey(devices, k) != [] && AllAvailable(WithKey(devices, k))
    ensures |WithKey(Adopted(devices, scan, now), k)| == |WithKey(devices, k)|
    ensures AllAvailable(WithKey(Adopted(devices, scan, now), k))
  {
    SeenWithKey(devices, scan, now, k);
    WithKeyHas(devices, k);
    UnknownKeys(devices, scan, k);
    WithKeyConcat(AllRefreshed(devices, scan, now), Unknown(devices, scan), k);
    assert WithKey(AllRefreshed(devices, scan, now), k) + [] == WithKey(AllRefreshed(devices, scan, now), k);
  }

  ghost predicate Present(devices: seq<Device>, k: string)
  {
    WithKey(devices, k) != [] && AllAvailable(WithKey(devices, k))
  }

  lemma {:induction false} AvailableWithKey(devices: seq<Device>, k: string)
    requires AllAvailable(devices)
    ensures AllAvailable(WithKey(devices, k))
  {
    if devices != [] {
      var init := devices[..|devices| - 1];
      assert forall i :: 0 <= i < |init| ==> init[i] == devices[i];
      AvailableWithKey(init, k);
    }
  }

  lemma HasEntry(devices: seq<Device>, k: string)
    requires HasKey(devices, k)
    ensures WithKey(devices, k) != []
  {
    var i :| 0 <= i < |devices| && Key(devices[i]) == k;
    WithKeySplit(devices, i, k);
  }

  lemma PartsAvailable(a: seq<Device>, m: seq<Device>, b: seq<Device>)
    ensures AllAvailable(a + m + b) <==> AllAvailable(a) && AllAvailable(m) && AllAvailable(b)
  {
    var all := a + m + b;
    if AllAvailable(all) {
      forall i | 0 <= i < |a| ensures a[i].available { assert all[i] == a[i]; }
      forall i | 0 <= i < |m| ensures m[i].available { assert all[|a| + i] == m[i]; }
      forall i | 0 <= i < |b| ensures b[i].available { assert all[|a| + |m| + i] == b[i]; }
    }
  }

  lemma ReplacedStays(devices: seq<Device>, i: nat, d: Device, k: string)
    requires i < |devices| && Present(devices, k) && d.available && (Key(devices[i]) == k ==> Key(d) == k)
    ensures Present(devices[i := d], k)
  {
    var a, b := WithKey(devices[..i], k), WithKey(devices[i+1..], k);
    var m, m' := if Key(devices[i]) == k then [devices[i]] else [], if Key(d) == k then [d] else [];
    WithKeySplit(devices, i, k);
    WithKeyUpdate(devices, i, d, k);
    PartsAvailable(a, m, b);
    PartsAvailable(a, m', b);
  }

  lemma PluggedStays(devices: seq<Device>, e: Event, k: string)
    requires e.Plugged? && Sees(devices, e, k) && Present(devices, k)
    ensures Present(Step(devices, e), k)
  {
    var i, d := Search(devices, e.usb.serial, e.usb.path), Convert(e.usb, e.node, e.now);
    if i >= 0 {
      ReplacedStays(devices, i, d, k);
    } else {
      WithKeySnoc(devices, d, k);
    }
  }

  lemma SeenStep(devices: seq<Device>, e: Event, k: string)
    requires Sees(devices, e, k) && Present(devices, k)
    ensures Present(Step(devices, e), k)
  {
    match e
    case InitialScan(now, scan) =>
      AvailableWithKey(scan, k);
      HasEntry(scan, k);
    case Plugged(now, usb, node) => PluggedStays(devices, e, k);
    case Unplugged(now, usb) => SparedStep(devices, e, k);
    case Scan(now, scan) => SeenScan(devices, scan, now, k);
    case Cleanup(now) =>
      KeptWithKey(devices, now, k);
      KeptAvailable(WithKey(devices, k), now);
  }

  /** Over every run of all five kinds of event, an available device that every scan sees, that is not
  unplugged and whose place no other device takes, is never dropped and stays available. */
  lemma {:induction false} SeenStays(devices: seq<Device>, events: seq<Event>, k: string)
    requires Present(devices, k) && AllSee(devices, events, k)
    ensures Present(Run(devices, events), k)
  {
    if events != [] {
      var init, last := events[..|events| - 1], events[|events| - 1];
      forall i | 0 <= i < |init| ensures Sees(Run(devices, init[..i]), init[i], k) {
        assert init[..i] == events[..i] && init[i] == events[i];
      }
      assert AllSee(devices, init, k);
      SeenStays(devices, init, k);
      SeenStep(Run(devices, init), last, k);
    }
  }

  /** Another device plugged in at a lost device's path takes its entry inside the grace period. */
  lemma PathTakenOver(k: string, path: string, other: string, node: string, now: int)
    requires k != "" && other != "" && other != k && path != ""
    ensures var lost := Device(k, path, node, now, false, "");
      WithKey(Step([lost], Plugged(now + 1, UsbDevice(other, path, ""), node)), SerialKey(k)) == []
  {
    var lost, taker := Device(k, path, node, now, false, ""), Device(other, path, node, now + 1, true, "");
    KeysApart(other, k);
    assert [lost][..0] == [];
    assert Search([lost], other, path) == 0;
    assert [lost][0 := taker] == [taker];
    WithKeyOne(taker, SerialKey(k));
  }

  /** An unplug event for a device that is already lost restarts its grace period: without it the cleanup drops
  the entry, with it the entry stays. */
  lemma UnplugRestartsGrace(serial: string, path: string, node: string, t: int)
    requires serial != ""
    ensures var lost, again, late := Device(serial, path, node, t, false, ""), t + GRACE_SECONDS, t + GRACE_SECONDS + 1;
      && Step([lost], Cleanup(late)) == []
      && Step(Step([lost], Unplugged(again, UsbDevice(serial, path, ""))), Cleanup(late)) == [lost.(lastSeen := again)]
  {
    var lost, again := Device(serial, path, node, t, false, ""), t + GRACE_SECONDS;
    assert [lost][..0] == [];
    assert Search([lost], serial, path) == 0;
    var moved := lost.(lastSeen := again);
    assert Step([lost], Unplugged(again, UsbDevice(serial, path, ""))) == [moved];
    assert [moved][..0] == [] && Kept([], t + GRACE_SECONDS + 1) == [];
  }

  /** A lost device is kept for five minutes: at 300 seconds it is still there, at 301 it is gone. */
  lemma FiveMinutes(serial: string, path: string, node: string, t: int)
    ensures var lost := Device(serial, path, node, t, false, "");
      Step([lost], Cleanup(t + 300)) == [lost] && Step([lost], Cleanup(t + 301)) == []
  {
    var lost := Device(serial, path, node, t, false, "");
    assert [lost][..0] == [] && Kept([], t + 300) == [] && Kept([], t + 301) == [];
  }

  /** A device that is plugged in is cached with all the bus reports of it, as seen now on this node. */
  lemma PluggedIsCached(devices: seq<Device>, now: int, u: UsbDevice, node: string)
    ensures Device(u.serial, u.path, node, now, true, u.info) in Step(devices, Plugged(now, u, node))
  {
    var d := Device(u.serial, u.path, node, now, true, u.info);
    var i := Search(devices, u.serial, u.path);
    assert Step(devices, Plugged(now, u, node))[if i >= 0 then i else |devices|] == d;
  }

  // --------------------------------------------------------- repeating a scan

  /** Devices new to the cache that share a key also share a path. */
  predicate NewPathsAgree(devices: seq<Device>, scan: seq<Device>)
  {
    forall i :: 0 <= i < |scan| && !HasKey(devices, Key(scan[i])) ==> SamePathAsLast(scan, scan[i])
  }

  predicate SamePathAsLast(scan: seq<Device>, d: Device)
  {
    LastByKey(scan, Key(d)).Some? ==> d.path == LastByKey(scan, Key(d)).value.path
  }

  lemma {:induction false} UnknownIn(devices: seq<Device>, scan: seq<Device>, i: nat)
    requires i < |scan| && !HasKey(devices, Key(scan[i]))
    ensures scan[i].(available := true) in Unknown(devices, scan)
  {
    if i < |scan| - 1 {
      assert scan[..|scan| - 1][i] == scan[i];
      UnknownIn(devices, scan[..|scan| - 1], i);
    }
  }

  lemma {:induction false} UnknownFrom(devices: seq<Device>, scan: seq<Device>, u: Device) returns (i: nat)
    requires u in Unknown(devices, scan)
    ensures i < |scan| && !HasKey(devices, Key(scan[i])) && u == scan[i].(available := true)
  {
    var init, last := scan[..|scan| - 1], scan[|scan| - 1];
    if u in Unknown(devices, init) {
      i := UnknownFrom(devices, init, u);
    } else {
      i := |scan| - 1;
    }
  }

  lemma RefreshedSettled(d: Device, scan: seq<Device>, now: int)
    ensures Key(Refreshed(d, scan, now)) == Key(d) && !Touched(Refreshed(d, scan, now), scan)
  {}

  lemma MergedKeepsKey(devices: seq<Device>, scan: seq<Device>, now: int, j: nat)
    requires j < |devices|
    ensures HasKey(Merged(devices, scan, now), Key(devices[j]))
  {
    RefreshedSettled(devices[j], scan, now);
    assert Key(Merged(devices, scan, now)[j]) == Key(devices[j]);
  }

  lemma HasKeyAfter(a: seq<Device>, b: seq<Device>, j: nat)
    requires j < |b|
    ensures HasKey(a + b, Key(b[j]))
  {
    assert Key((a + b)[|a| + j]) == Key(b[j]);
  }

  lemma MergedAddsKey(devices: seq<Device>, scan: seq<Device>, now: int, i: nat)
    requires i < |scan| && !HasKey(devices, Key(scan[i]))
    ensures HasKey(Merged(devices, scan, now), Key(scan[i]))
  {
    UnknownIn(devices, scan, i);
    var j :| 0 <= j < |Unknown(devices, scan)| && Unknown(devices, scan)[j] == scan[i].(available := true);
    HasKeyAfter(AllRefreshed(devices, scan, now), Unknown(devices, scan), j);
  }

  lemma MergedHasKeys(devices: seq<Device>, scan: seq<Device>, now: int, i: nat)
    requires i < |scan|
    ensures HasKey(Merged(devices, scan, now), Key(scan[i]))
  {
    if HasKey(devices, Key(scan[i])) {
      var j :| 0 <= j < |devices| && Key(devices[j]) == Key(scan[i]);
      MergedKeepsKey(devices, scan, now, j);
    } else {
      MergedAddsKey(devices, scan, now, i);
    }
  }

  lemma NothingUnknown(devices: seq<Device>, scan: seq<Device>)
    ensures Unknown(devices, scan) == [] <==> forall i :: 0 <= i < |scan| ==> HasKey(devices, Key(scan[i]))
  {
    if Unknown(devices, scan) != [] {
      var i := UnknownFrom(devices, scan, Unknown(devices, scan)[0]);
    }
    forall i | 0 <= i < |scan| ensures HasKey(devices, Key(scan[i])) || Unknown(devices, scan) != [] {
      if !HasKey(devices, Key(scan[i])) { UnknownIn(devices, scan, i); }
    }
  }

  lemma NewIsTouched(devices: seq<Device>, scan: seq<Device>, now: int, i: nat) returns (j: nat)
    requires i < |scan| && !HasKey(devices, Key(scan[i])) && !SamePathAsLast(scan, scan[i])
    ensures j < |Merged(devices, scan, now)| && Touched(Merged(devices, scan, now)[j], scan)
  {
    UnknownIn(devices, scan, i);
    var unknown := Unknown(devices, scan);
    var u :| 0 <= u < |unknown| && unknown[u] == scan[i].(available := true);
    j := |devices| + u;
    assert Merged(devices, scan, now)[j] == unknown[u];
  }

  /** A merged entry is touched by the same scan exactly when it was new and its path lost to a later one. */
  lemma MergedTouched(devices: seq<Device>, scan: seq<Device>, now: int)
    ensures (exists i :: 0 <= i < |Merged(devices, scan, now)| && Touched(Merged(devices, scan, now)[i], scan))
            <==> !NewPathsAgree(devices, scan)
  {
    if i :| 0 <= i < |Merged(devices, scan, now)| && Touched(Merged(devices, scan, now)[i], scan) {
      MergedTouchedNew(devices, scan, now, i);
    }
    if i :| 0 <= i < |scan| && !HasKey(devices, Key(scan[i])) && !SamePathAsLast(scan, scan[i]) {
      var j := NewIsTouched(devices, scan, now, i);
    }
  }

  lemma MergedTouchedNew(devices: seq<Device>, scan: seq<Device>, now: int, i: nat)
    requires i < |Merged(devices, scan, now)| && Touched(Merged(devices, scan, now)[i], scan)
    ensures !NewPathsAgree(devices, scan)
  {
    var m := Merged(devices, scan, now);
    if i < |devices| {
      assert m[i] == Refreshed(devices[i], scan, now);
      RefreshedSettled(devices[i], scan, now);
    } else {
      var u := Unknown(devices, scan)[i - |devices|];
      assert m[i] == u;
      var j := UnknownFrom(devices, scan, u);
      assert HasKey(scan, Key(scan[j]));
      assert !SamePathAsLast(scan, scan[j]);
    }
  }

  /** Merging the same scan again reports no change exactly when devices new to the cache that share a
  key also share a path. */
  lemma RepeatedScanIff(devices: seq<Device>, scan: seq<Device>, now: int)
    ensures Changed(Adopted(devices, scan, now), scan) <==> !NewPathsAgree(devices, scan)
  {
    NothingUnknown(devices, scan);
    if Changed(devices, scan) {
      forall i | 0 <= i < |scan| ensures HasKey(Merged(devices, scan, now), Key(scan[i])) {
        MergedHasKeys(devices, scan, now, i);
      }
      NothingUnknown(Merged(devices, scan, now), scan);
      MergedTouched(devices, scan, now);
    }
  }

  /** One serial seen at two paths is reported as a change on every scan. */
  lemma RepeatedScanChanges(serial: string, p: string, q: string, node: string, seen: int, now: int)
    requires serial != "" && p != q
    ensures var scan := [Device(serial, p, node, seen, true, ""), Device(serial, q, node, seen, true, "")];
      Changed(Adopted([], scan, now), scan)
  {
    var scan := [Device(serial, p, node, seen, true, ""), Device(serial, q, node, seen, true, "")];
    assert Key(scan[0]) == Key(scan[1]);
    assert LastByKey(scan, Key(scan[0])) == Some(scan[1]);
    assert !SamePathAsLast(scan, scan[0]);
    RepeatedScanIff([], scan, now);
  }

  // ----------------------------------------------------------- unique serials

  /** Every device has a serial and no two share one. */
  ghost predicate UniqueSerials(devices: seq<Device>)
  {
    && (forall i :: 0 <= i < |devices| ==> devices[i].serial != "")
    && (forall i, j :: 0 <= i < j < |devices| ==> devices[i].serial != devices[j].serial)
  }

  lemma AddedUnique(devices: seq<Device>, d: Device)
    requires UniqueSerials(devices) && d.serial != ""
    ensures UniqueSerials(Added(devices, d))
  {}

  lemma RemovedUnique(devices: seq<Device>, u: UsbDevice, now: int)
    requires UniqueSerials(devices)
    ensures UniqueSerials(Removed(devices, u, now))
  {}

  lemma {:induction false} KeptFrom(devices: seq<Device>, now: int)
    ensures forall d :: d in Kept(devices, now) ==> d in devices
  {
    if devices != [] { KeptFrom(devices[..|devices| - 1], now); }
  }

  lemma {:induction false} KeptUnique(devices: seq<Device>, now: int)
    requires UniqueSerials(devices)
    ensures UniqueSerials(Kept(devices, now))
  {
    if devices != [] {
      var init, last := devices[..|devices| - 1], devices[|devices| - 1];
      KeptUnique(init, now);
      KeptFrom(init, now);
      var kept := Kept(init, now);
      forall i | 0 <= i < |kept| ensures kept[i].serial != last.serial {
        assert kept[i] in init;
        var j :| 0 <= j < |init| && init[j] == kept[i];
        assert devices[j] == kept[i];
      }
    }
  }

  lemma SameSerial(d: Device, scan: seq<Device>, now: int)
    requires d.serial != ""
    ensures Refreshed(d, scan, now).serial == d.serial
  {
    var r := Refreshed(d, scan, now);
    RefreshedSettled(d, scan, now);
    KeysApart(d.serial, r.serial);
    KeysApart(d.serial, r.path);
  }

  lemma KeyIsSerial(devices: seq<Device>, d: Device)
    requires UniqueSerials(devices) && d.serial != ""
    ensures HasKey(devices, Key(d)) <==> exists i :: 0 <= i < |devices| && devices[i].serial == d.serial
  {
    if HasKey(devices, Key(d)) {
      var i :| 0 <= i < |devices| && Key(devices[i]) == Key(d);
      KeysApart(devices[i].serial, d.serial);
    }
    if i :| 0 <= i < |devices| && devices[i].serial == d.serial {
      assert Key(devices[i]) == Key(d);
    }
  }

  /** The scanned devices new to the cache have serials, no two the same. */
  ghost predicate NewSerialsApart(devices: seq<Device>, scan: seq<Device>)
  {
    && (forall i :: 0 <= i < |scan| && !HasKey(devices, Key(scan[i])) ==> scan[i].serial != "")
    && (forall i, j :: 0 <= i < j < |scan| && !HasKey(devices, Key(scan[i])) && !HasKey(devices, Key(scan[j])) ==>
          scan[i].serial != scan[j].serial)
  }

  /** A serial is among the new devices exactly when a scanned device new to the cache has it. */
  ghost predicate NewSerial(devices: seq<Device>, scan: seq<Device>, s: string)
  {
    exists i :: 0 <= i < |scan| && !HasKey(devices, Key(scan[i])) && scan[i].serial == s
  }

  lemma {:induction false} UnknownSerials(devices: seq<Device>, scan: seq<Device>, s: string)
    ensures NewSerial(devices, scan, s) <==>
      exists i :: 0 <= i < |Unknown(devices, scan)| && Unknown(devices, scan)[i].serial == s
  {
    if scan != [] {
      var init, last := scan[..|scan| - 1], scan[|scan| - 1];
      assert forall i :: 0 <= i < |init| ==> init[i] == scan[i];
      UnknownSerials(devices, init, s);
      var before, after := Unknown(devices, init), Unknown(devices, scan);
      assert forall i :: 0 <= i < |before| ==> after[i] == before[i];
      if !HasKey(devices, Key(last)) { assert after[|before|].serial == last.serial; }
    }
  }

  lemma UniqueSnoc(devices: seq<Device>, d: Device)
    ensures UniqueSerials(devices + [d]) <==>
            UniqueSerials(devices) && d.serial != "" && !exists i :: 0 <= i < |devices| && devices[i].serial == d.serial
  {
    var all := devices + [d];
    assert all[|devices|] == d && forall i :: 0 <= i < |devices| ==> all[i] == devices[i];
  }

  lemma NewSnoc(devices: seq<Device>, scan: seq<Device>, d: Device)
    ensures NewSerialsApart(devices, scan + [d]) <==>
            NewSerialsApart(devices, scan)
            && (HasKey(devices, Key(d)) || (d.serial != "" && !NewSerial(devices, scan, d.serial)))
  {
    var all := scan + [d];
    assert all[|scan|] == d && forall i :: 0 <= i < |scan| ==> all[i] == scan[i];
  }

  lemma {:induction false} UnknownUniqueIff(devices: seq<Device>, scan: seq<Device>)
    ensures UniqueSerials(Unknown(devices, scan)) <==> NewSerialsApart(devices, scan)
  {
    if scan != [] {
      var init, last := scan[..|scan| - 1], scan[|scan| - 1];
      assert scan == init + [last];
      UnknownUniqueIff(devices, init);
      NewSnoc(devices, init, last);
      if !HasKey(devices, Key(last)) {
        UnknownSerials(devices, init, last.serial);
        UniqueSnoc(Unknown(devices, init), last.(available := true));
      } else {
        assert Unknown(devices, scan) == Unknown(devices, init);
      }
    }
  }

  lemma UnknownApart(devices: seq<Device>, scan: seq<Device>, i: nat, u: Device)
    requires UniqueSerials(devices) && i < |devices| && u in Unknown(devices, scan)
    ensures devices[i].serial != u.serial
  {
    var j := UnknownFrom(devices, scan, u);
    if scan[j].serial != "" { KeyIsSerial(devices, scan[j]); }
  }

  lemma UniqueParts(a: seq<Device>, b: seq<Device>)
    requires UniqueSerials(a) && forall i, j :: 0 <= i < |a| && 0 <= j < |b| ==> a[i].serial != b[j].serial
    ensures UniqueSerials(a + b) <==> UniqueSerials(b)
  {
    var all := a + b;
    assert forall j :: 0 <= j < |b| ==> all[|a| + j] == b[j];
    if UniqueSerials(all) {
      forall j | 0 <= j < |b| ensures b[j].serial != "" { assert all[|a| + j] == b[j]; }
      forall i, j | 0 <= i < j < |b| ensures b[i].serial != b[j].serial {
        assert all[|a| + i] == b[i] && all[|a| + j] == b[j];
      }
    }
  }

  /** A merge keeps the serials unique exactly when the devices new to the cache have different serials. */
  lemma AdoptedUniqueIff(devices: seq<Device>, scan: seq<Device>, now: int)
    requires UniqueSerials(devices)
    ensures UniqueSerials(Adopted(devices, scan, now)) <==> NewSerialsApart(devices, scan)
  {
    var a, b := AllRefreshed(devices, scan, now), Unknown(devices, scan);
    UnknownUniqueIff(devices, scan);
    forall i | 0 <= i < |devices| ensures a[i].serial == devices[i].serial { SameSerial(devices[i], scan, now); }
    forall i, j | 0 <= i < |a| && 0 <= j < |b| ensures a[i].serial != b[j].serial {
      UnknownApart(devices, scan, i, b[j]);
    }
    UniqueParts(a, b);
  }

  /** The event brings in no serial twice and no device without one. */
  ghost predicate KeepsSerials(devices: seq<Device>, e: Event)
  {
    match e
    case InitialScan(now, scan) => UniqueSerials(scan)
    case Plugged(now, usb, node) => usb.serial != ""
    case Unplugged(now, usb) => true
    case Scan(now, scan) => NewSerialsApart(devices, scan)
    case Cleanup(now) => true
  }

  lemma AddedNameless(devices: seq<Device>, d: Device)
    requires d.serial == ""
    ensures !UniqueSerials(Added(devices, d))
  {
    var i := Search(devices, d.serial, d.path);
    assert Added(devices, d)[if i >= 0 then i else |devices|] == d;
  }

  lemma StepUniqueIff(devices: seq<Device>, e: Event)
    requires UniqueSerials(devices)
    ensures UniqueSerials(Step(devices, e)) <==> KeepsSerials(devices, e)
  {
    match e
    case InitialScan(now, scan) =>
    case Plugged(now, usb, node) =>
      if usb.serial != "" {
        AddedUnique(devices, Convert(usb, node, now));
      } else {
        AddedNameless(devices, Convert(usb, node, now));
      }
    case Unplugged(now, usb) => RemovedUnique(devices, usb, now);
    case Scan(now, scan) => AdoptedUniqueIff(devices, scan, now);
    case Cleanup(now) => KeptUnique(devices, now);
  }

  /** The cache never holds a serial twice, or a device without one, at any point of the run. */
  ghost predicate AlwaysUnique(events: seq<Event>)
  {
    forall k :: 0 <= k <= |events| ==> UniqueSerials(Run([], events[..k]))
  }

  ghost predicate AllKeepSerials(events: seq<Event>)
  {
    forall k :: 0 <= k < |events| ==> KeepsSerials(Run([], events[..k]), events[k])
  }

  lemma AlwaysUniqueSnoc(init: seq<Event>, last: Event)
    ensures AlwaysUnique(init + [last]) <==> AlwaysUnique(init) && UniqueSerials(Run([], init + [last]))
  {
    var events := init + [last];
    assert events[..|events|] == events;
    forall j | 0 <= j <= |init| ensures UniqueSerials(Run([], init[..j])) <==> UniqueSerials(Run([], events[..j])) {
      assert init[..j] == events[..j];
    }
  }

  lemma AllKeepSnoc(init: seq<Event>, last: Event)
    ensures AllKeepSerials(init + [last]) <==> AllKeepSerials(init) && KeepsSerials(Run([], init), last)
  {
    var events := init + [last];
    assert events[|init|] == last && events[..|init|] == init;
    assert forall j :: 0 <= j < |init| ==> init[..j] == events[..j] && init[j] == events[j];
  }

  /** Over every run of all five events that is so exactly when no event brings in a serial twice. */
  lemma {:induction false} SerialsStayUnique(events: seq<Event>)
    ensures AlwaysUnique(events) <==> AllKeepSerials(events)
  {
    if events != [] {
      var init, last := events[..|events| - 1], events[|events| - 1];
      assert events == init + [last];
      SerialsStayUnique(init);
      AlwaysUniqueSnoc(init, last);
      AllKeepSnoc(init, last);
      if AlwaysUnique(init) {
        assert init[..|init|] == init;
        StepUniqueIff(Run([], init), last);
      }
    }
  }

  /** A scan that reports one serial at two paths leaves it cached twice. */
  lemma SerialCachedTwice(serial: string, p: string, q: string, node: string, seen: int, now: int)
    requires serial != "" && p != q
    ensures var scan := [Device(serial, p, node, seen, true, ""), Device(serial, q, node, seen, true, "")];
      !UniqueSerials(Step([], Scan(now, scan)))
  {
    var scan := [Device(serial, p, node, seen, true, ""), Device(serial, q, node, seen, true, "")];
    assert scan[0].serial == scan[1].serial;
    AdoptedUniqueIff([], scan, now);
  }
}
