/** The discovery agent as an object: every handler leaves the index equal to the
one built from the cache, and the plugin list equal to the one the cache calls
for whenever the handler knows the device type.
*/
module DiscoveryCache {
  import opened Replica
  import opened Discovery
  import opened GoStrings
  import opened Resolve

  lemma Snoc<T>(s: seq<T>, i: nat)
    requires i < |s|
    ensures s[..i + 1] == s[..i] + [s[i]] && s[..i + 1][..i] == s[..i]
  {}

  method BuildIndex(devices: seq<Device>) returns (index: Index)
    ensures index == IndexOf(devices)
  {
    index := map[];
    for i := 0 to |devices|
      invariant index == IndexOf(devices[..i])
    {
      Snoc(devices, i);
      if devices[i].serial != "" { index := index[SerialKey(devices[i].serial) := i]; }
      if devices[i].path != "" { index := index[PathKey(devices[i].path) := i]; }
    }
    assert devices[..|devices|] == devices;
  }

  /** The device plugin replaces its whole list. */
  method UpdateDevices(devices: seq<Device>) returns (listed: map<string, Advertised>)
    ensures listed == Advertise(devices)
  {
    listed := map[];
    for i := 0 to |devices|
      invariant listed == Advertise(devices[..i])
    {
      Snoc(devices, i);
      listed := listed[DeviceId(devices[i]) := Record(devices[i])];
    }
    assert devices[..|devices|] == devices;
  }

  method FilterNode(devices: seq<Device>, node: string) returns (here: seq<Device>)
    ensures here == NodeDevices(devices, node)
  {
    here := [];
    for i := 0 to |devices|
      invariant here == NodeDevices(devices[..i], node)
    {
      Snoc(devices, i);
      if devices[i].node == node && devices[i].available { here := here + [devices[i]]; }
    }
    assert devices[..|devices|] == devices;
  }

  lemma {:induction false} KeptNoMore(devices: seq<Device>, now: int)
    ensures |Kept(devices, now)| <= |devices|
    ensures |Kept(devices, now)| == |devices| ==> Kept(devices, now) == devices
  {
    if devices != [] { KeptNoMore(devices[..|devices| - 1], now); }
  }

  method DropStale(devices: seq<Device>, now: int) returns (active: seq<Device>, cleaned: nat)
    ensures active == Kept(devices, now)
    ensures cleaned == 0 ==> active == devices
  {
    active, cleaned := [], 0;
    for i := 0 to |devices|
      invariant active == Kept(devices[..i], now) && cleaned + |active| == i
    {
      Snoc(devices, i);
      if !devices[i].available && now - devices[i].lastSeen > GRACE_SECONDS {
        cleaned := cleaned + 1;
        continue;
      }
      active := active + [devices[i]];
    }
    assert devices[..|devices|] == devices;
    KeptNoMore(devices, now);
  }

  // ------------------------------------------------------------------- merge

  ghost predicate ByKey(m: map<string, Device>, scan: seq<Device>)
  {
    forall k :: (if k in m then Some(m[k]) else None) == LastByKey(scan, k)
  }

  method IndexScan(scan: seq<Device>) returns (m: map<string, Device>)
    ensures ByKey(m, scan)
  {
    m := map[];
    for i := 0 to |scan|
      invariant ByKey(m, scan[..i])
    {
      Snoc(scan, i);
      m := m[Key(scan[i]) := scan[i]];
    }
    assert scan[..|scan|] == scan;
  }

  /** The keys of the cached devices that the scan has seen. */
  ghost predicate MatchedKeys(matched: set<string>, devices: seq<Device>, scan: seq<Device>)
  {
    forall k :: k in matched <==> HasKey(devices, k) && HasKey(scan, k)
  }

  lemma HasKeySnoc(devices: seq<Device>, d: Device, k: string)
    ensures HasKey(devices + [d], k) <==> HasKey(devices, k) || Key(d) == k
  {
    var more := devices + [d];
    if HasKey(devices, k) {
      var i :| 0 <= i < |devices| && Key(devices[i]) == k;
      assert Key(more[i]) == k;
    }
    if Key(d) == k { assert Key(more[|devices|]) == k; }
    if HasKey(more, k) {
      var i :| 0 <= i < |more| && Key(more[i]) == k;
      if i < |devices| { assert Key(devices[i]) == k; }
    }
  }

  lemma MatchedSnoc(matched: set<string>, devices: seq<Device>, d: Device, scan: seq<Device>)
    requires MatchedKeys(matched, devices, scan)
    ensures MatchedKeys(if HasKey(scan, Key(d)) then matched + {Key(d)} else matched, devices + [d], scan)
  {
    forall k ensures HasKey(devices + [d], k) <==> HasKey(devices, k) || Key(d) == k { HasKeySnoc(devices, d, k); }
  }

  ghost predicate AnyTouched(devices: seq<Device>, scan: seq<Device>)
  {
    exists i :: 0 <= i < |devices| && Touched(devices[i], scan)
  }

  lemma TouchedSnoc(devices: seq<Device>, d: Device, scan: seq<Device>)
    ensures AnyTouched(devices + [d], scan) <==> AnyTouched(devices, scan) || Touched(d, scan)
  {
    var more := devices + [d];
    if AnyTouched(devices, scan) {
      var i :| 0 <= i < |devices| && Touched(devices[i], scan);
      assert Touched(more[i], scan);
    }
    if Touched(d, scan) { assert Touched(more[|devices|], scan); }
  }

  /** One cached device against the scan. */
  method RefreshOne(cached: Device, scan: seq<Device>, byKey: map<string, Device>, now: int)
    returns (d: Device, seen: bool, touched: bool)
    requires ByKey(byKey, scan)
    ensures d == Refreshed(cached, scan, now) && seen == HasKey(scan, Key(cached)) && touched == Touched(cached, scan)
  {
    var k := Key(cached);
    assert (if k in byKey then Some(byKey[k]) else None) == LastByKey(scan, k);
    if k in byKey {
      d := byKey[k].(available := true);
      return d, true, cached.path != d.path || !cached.available;
    }
    if cached.available {
      return cached.(available := false, lastSeen := now), false, true;
    }
    return cached, false, false;
  }

  method RefreshAll(devices: seq<Device>, scan: seq<Device>, byKey: map<string, Device>, now: int)
    returns (merged: seq<Device>, matched: set<string>, changed: bool)
    requires ByKey(byKey, scan)
    ensures merged == AllRefreshed(devices, scan, now)
    ensures MatchedKeys(matched, devices, scan)
    ensures changed == AnyTouched(devices, scan)
  {
    merged, matched, changed := [], {}, false;
    for i := 0 to |devices|
      invariant merged == AllRefreshed(devices[..i], scan, now)
      invariant MatchedKeys(matched, devices[..i], scan)
      invariant changed == AnyTouched(devices[..i], scan)
    {
      Snoc(devices, i);
      MatchedSnoc(matched, devices[..i], devices[i], scan);
      TouchedSnoc(devices[..i], devices[i], scan);
      var d, seen, touched := RefreshOne(devices[i], scan, byKey, now);
      merged := merged + [d];
      if seen { matched := matched + {Key(devices[i])}; }
      changed := changed || touched;
    }
    assert devices[..|devices|] == devices;
  }

  lemma UnknownStep(devices: seq<Device>, scan: seq<Device>, matched: set<string>, i: nat)
    requires MatchedKeys(matched, devices, scan) && i < |scan|
    ensures Unknown(devices, scan[..i + 1]) == Unknown(devices, scan[..i])
              + (if Key(scan[i]) in matched then [] else [scan[i].(available := true)])
  {
    Snoc(scan, i);
    assert HasKey(scan, Key(scan[i]));
  }

  method AppendUnknown(devices: seq<Device>, scan: seq<Device>, matched: set<string>) returns (extra: seq<Device>)
    requires MatchedKeys(matched, devices, scan)
    ensures extra == Unknown(devices, scan)
  {
    extra := [];
    for i := 0 to |scan|
      invariant extra == Unknown(devices, scan[..i])
    {
      UnknownStep(devices, scan, matched, i);
      if Key(scan[i]) in matched { continue; }
      extra := extra + [scan[i].(available := true)];
    }
    assert scan[..|scan|] == scan;
  }

  // -------------------------------------------------------------- plugin view

  type Cache = map<string, seq<Device>>
  type Plugins = map<string, map<string, Advertised>>

  /** Each device type is asked for by one HSMDevice. */
  ghost predicate OnePerType(typeOf: string -> string)
  {
    forall a, b :: typeOf(a) == typeOf(b) ==> a == b
  }

  /** The plugin of the HSMDevice's type lists exactly the available devices the cache has on the node. */
  ghost predicate Shown(typeOf: string -> string, cache: Cache, plugins: Plugins, node: string, n: string)
  {
    if n in cache then typeOf(n) in plugins && plugins[typeOf(n)] == Advertisement(cache[n], node)
    else typeOf(n) !in plugins
  }

  ghost predicate AllShown(typeOf: string -> string, cache: Cache, plugins: Plugins, node: string)
  {
    forall n :: Shown(typeOf, cache, plugins, node, n)
  }

  lemma ShownAfterUpdate(typeOf: string -> string, cache: Cache, plugins: Plugins, node: string,
                         name: string, devices: seq<Device>)
    requires OnePerType(typeOf) && AllShown(typeOf, cache, plugins, node)
    ensures AllShown(typeOf, cache[name := devices], plugins[typeOf(name) := Advertisement(devices, node)], node)
  {
    var cache', plugins' := cache[name := devices], plugins[typeOf(name) := Advertisement(devices, node)];
    forall n ensures Shown(typeOf, cache', plugins', node, n) {
      if n != name { assert Shown(typeOf, cache, plugins, node, n) && typeOf(n) != typeOf(name); }
    }
  }

  /** A cache update that skips the plugin is seen unless it changes nothing the plugin lists. */
  lemma ShownAfterSkip(typeOf: string -> string, cache: Cache, plugins: Plugins, node: string,
                       name: string, devices: seq<Device>)
    requires AllShown(typeOf, cache, plugins, node)
    ensures AllShown(typeOf, cache[name := devices], plugins, node) <==>
            SameShown(cache, name, devices, node)
  {
    var cache' := cache[name := devices];
    assert Shown(typeOf, cache, plugins, node, name);
    forall n | n != name ensures Shown(typeOf, cache', plugins, node, n) {
      assert Shown(typeOf, cache, plugins, node, n);
    }
    if SameShown(cache, name, devices, node) {
      forall n ensures Shown(typeOf, cache', plugins, node, n) {}
    } else {
      assert !Shown(typeOf, cache', plugins, node, name);
    }
  }

  ghost predicate SameShown(cache: Cache, name: string, devices: seq<Device>, node: string)
  {
    name in cache && Advertisement(cache[name], node) == Advertisement(devices, node)
  }

  function KeptIn(cache: Cache, now: int): Cache
  {
    map n | n in cache :: Kept(cache[n], now)
  }

  /** The cache once the devices of the first names have been cleaned up. */
  ghost function KeptUpto(cache: Cache, names: seq<string>, now: int): Cache
    requires Elements(names) <= cache.Keys
  {
    if names == [] then cache
    else
      var last := names[|names| - 1];
      assert last in Elements(names) && Elements(names[..|names| - 1]) <= Elements(names);
      KeptUpto(cache, names[..|names| - 1], now)[last := Kept(cache[last], now)]
  }

  lemma {:induction false} KeptUptoAt(cache: Cache, names: seq<string>, now: int)
    requires Elements(names) <= cache.Keys
    ensures KeptUpto(cache, names, now).Keys == cache.Keys
    ensures forall n :: n in cache ==>
      KeptUpto(cache, names, now)[n] == if n in names then Kept(cache[n], now) else cache[n]
  {
    if names != [] {
      var init, last := names[..|names| - 1], names[|names| - 1];
      assert last in Elements(names) && Elements(init) <= Elements(names);
      assert forall n :: n in names <==> n in init || n == last;
      KeptUptoAt(cache, init, now);
    }
  }

  lemma KeptAll(cache: Cache, names: seq<string>, now: int)
    requires Elements(names) == cache.Keys
    ensures KeptUpto(cache, names, now) == KeptIn(cache, now)
  {
    KeptUptoAt(cache, names, now);
    assert forall n :: n in cache ==> n in Elements(names);
  }

  lemma KeptNext(cache: Cache, names: seq<string>, now: int, i: nat)
    requires Distinct(names) && Elements(names) == cache.Keys && i < |names|
    ensures names[i] in cache && Elements(names[..i]) <= cache.Keys && Elements(names[..i+1]) <= cache.Keys
    ensures names[i] in KeptUpto(cache, names[..i], now)
      && KeptUpto(cache, names[..i], now)[names[i]] == cache[names[i]]
    ensures KeptUpto(cache, names[..i+1], now) ==
      KeptUpto(cache, names[..i], now)[names[i] := Kept(cache[names[i]], now)]
  {
    assert names[i] in Elements(names);
    Snoc(names, i);
    KeptUptoAt(cache, names[..i], now);
  }

  /** An added device changes nothing the plugin lists: it replaces a record that looks the same. */
  predicate AddUnseen(cache: Cache, name: string, d: Device, node: string)
  {
    name in cache && var i := Search(cache[name], d.serial, d.path); i >= 0 && LooksSame(cache[name][i], d, node)
  }

  /** A removed device changes nothing the plugin lists: no record matches, or the match is not shown. */
  predicate RemoveUnseen(devices: seq<Device>, u: UsbDevice, node: string)
  {
    var i := Search(devices, u.serial, u.path);
    i < 0 || !OnNode(devices[i], node)
  }

  lemma AddUnseenIff(cache: Cache, name: string, d: Device, node: string)
    requires var devices := if name in cache then cache[name] else [];
      OnNode(d, node) && DistinctShown(devices, node) && DistinctShown(Added(devices, d), node)
    ensures var devices := if name in cache then cache[name] else [];
      SameShown(cache, name, Added(devices, d), node) <==> AddUnseen(cache, name, d, node)
  {
    var devices := if name in cache then cache[name] else [];
    var i := Search(devices, d.serial, d.path);
    if i >= 0 { ReplacedIff(devices, i, d, node); } else { AppendedIff(devices, d, node); }
  }

  lemma RemoveUnseenIff(cache: Cache, name: string, u: UsbDevice, now: int, node: string)
    requires name in cache && DistinctShown(cache[name], node)
    ensures SameShown(cache, name, Removed(cache[name], u, now), node) <==> RemoveUnseen(cache[name], u, node)
  {
    var devices := cache[name];
    var i := Search(devices, u.serial, u.path);
    if i >= 0 {
      var lost := devices[i].(available := false, lastSeen := now);
      assert DistinctShown(devices[i := lost], node);
      ReplacedIff(devices, i, lost, node);
    }
  }

  /** A first device plugged in for an HSMDevice whose type is not recorded: the cache shows it, the
  plugin, which is only told by type, does not. */
  lemma UnrecordedTypeGoesStale(typeOf: string -> string, node: string, name: string, u: UsbDevice, now: int)
    requires OnePerType(typeOf)
    ensures var cache: Cache, plugins: Plugins := map[name := []], map[typeOf(name) := map[]];
      && AllShown(typeOf, cache, plugins, node)
      && !AllShown(typeOf, cache[name := Added([], Convert(u, node, now))], plugins, node)
  {
    var cache: Cache, plugins: Plugins := map[name := []], map[typeOf(name) := map[]];
    var d := Convert(u, node, now);
    forall n ensures Shown(typeOf, cache, plugins, node, n) {}
    ShownAfterSkip(typeOf, cache, plugins, node, name, Added([], d));
    AddUnseenIff(cache, name, d, node);
  }

  /** A cleanup never needs to tell the plugin. */
  lemma ShownAfterCleanup(typeOf: string -> string, cache: Cache, plugins: Plugins, node: string, now: int)
    requires AllShown(typeOf, cache, plugins, node)
    ensures AllShown(typeOf, KeptIn(cache, now), plugins, node)
  {
    var cache' := KeptIn(cache, now);
    forall n ensures Shown(typeOf, cache', plugins, node, n) {
      assert Shown(typeOf, cache, plugins, node, n);
      if n in cache { KeptOnNode(cache[n], node, now); }
    }
  }

  // --------------------------------------------------------------- the agent

  class DiscoveryAgent {
    const nodeName: string
    /** The device type each HSMDevice asks for. */
    ghost const typeOf: string -> string
    var deviceCache: Cache
    var deviceLookup: map<string, Index>
    var deviceTypes: map<string, string>
    /** The list held by the device plugin of each type. */
    var plugins: Plugins

    /** The index is the one built from the cache. */
    ghost predicate IndexCurrent()
      reads this
    {
      && deviceLookup.Keys == deviceCache.Keys
      && forall n :: n in deviceCache ==> deviceLookup[n] == IndexOf(deviceCache[n])
    }

    ghost predicate Valid()
      reads this
    {
      IndexCurrent() && forall n :: n in deviceTypes ==> deviceTypes[n] == typeOf(n)
    }

    ghost function Cached(name: string): seq<Device>
      reads this
    {
      if name in deviceCache then deviceCache[name] else []
    }

    ghost predicate AllInStep()
      reads this
    {
      AllShown(typeOf, deviceCache, plugins, nodeName)
    }

    constructor (node: string, ghost types: string -> string)
      ensures Valid() && nodeName == node && typeOf == types && deviceCache == map[] && AllInStep()
    {
      nodeName, typeOf := node, types;
      deviceCache, deviceLookup, deviceTypes, plugins := map[], map[], map[], map[];
    }

    method UpdateDeviceCache(name: string, devices: seq<Device>)
      requires Valid()
      modifies `deviceCache, `deviceLookup
      ensures Valid() && deviceCache == old(deviceCache)[name := devices]
    {
      deviceCache := deviceCache[name := devices];
      var index := BuildIndex(devices);
      deviceLookup := deviceLookup[name := index];
    }

    /** The indexed lookup finds what a linear search from the end would. */
    method FindDeviceIndex(name: string, serial: string, path: string) returns (i: int)
      requires Valid()
      ensures i == Search(Cached(name), serial, path)
      ensures -1 <= i < |Cached(name)|
    {
      if name !in deviceLookup { return -1; }
      IndexIsSearch(deviceCache[name], serial, path);
      var index := deviceLookup[name];
      if serial != "" && SerialKey(serial) in index { return index[SerialKey(serial)]; }
      if path != "" && PathKey(path) in index { return index[PathKey(path)]; }
      return -1;
    }

    method UpdateDevicePluginByType(deviceType: string, devices: seq<Device>)
      modifies `plugins
      ensures plugins == old(plugins)[deviceType := Advertisement(devices, nodeName)]
    {
      var here := FilterNode(devices, nodeName);
      var listed := UpdateDevices(here);
      plugins := plugins[deviceType := listed];
    }

    method UpdateDevicePluginByName(name: string, devices: seq<Device>)
      requires Valid()
      modifies `plugins
      ensures plugins == if name in deviceTypes then old(plugins)[typeOf(name) := Advertisement(devices, nodeName)]
                         else old(plugins)
    {
      if name !in deviceTypes { return; }
      UpdateDevicePluginByType(deviceTypes[name], devices);
    }

    /** The first scan of an HSMDevice replaces its cache entry. */
    method ProcessHSMDevice(name: string, deviceType: string, scan: Option<seq<Device>>)
      requires Valid() && deviceType == typeOf(name)
      modifies this
      ensures Valid() && deviceTypes == old(deviceTypes)[name := deviceType]
      ensures deviceCache == if scan.Some? then old(deviceCache)[name := scan.value] else old(deviceCache)
      ensures OnePerType(typeOf) && old(AllInStep()) ==> AllInStep()
    {
      deviceTypes := deviceTypes[name := deviceType];
      if scan.None? { return; }
      UpdateDeviceCache(name, scan.value);
      UpdateDevicePluginByType(deviceType, scan.value);
      if OnePerType(typeOf) && old(AllInStep()) {
        ShownAfterUpdate(typeOf, old(deviceCache), old(plugins), nodeName, name, scan.value);
      }
    }

    /** A handler's cache and plugin update; without a known device type the plugin is not told. */
    method Store(name: string, devices: seq<Device>)
      requires Valid()
      modifies `deviceCache, `deviceLookup, `plugins
      ensures Valid() && deviceCache == old(deviceCache)[name := devices]
      ensures OnePerType(typeOf) && old(AllInStep()) ==>
              (AllInStep() <==> name in deviceTypes || SameShown(old(deviceCache), name, devices, nodeName))
    {
      UpdateDeviceCache(name, devices);
      UpdateDevicePluginByName(name, devices);
      if OnePerType(typeOf) && old(AllInStep()) {
        ShownAfterUpdate(typeOf, old(deviceCache), old(plugins), nodeName, name, devices);
        ShownAfterSkip(typeOf, old(deviceCache), old(plugins), nodeName, name, devices);
      }
    }

    method HandleDeviceAdd(name: string, u: UsbDevice, now: int)
      requires Valid()
      modifies `deviceCache, `deviceLookup, `plugins
      ensures Valid()
      ensures deviceCache == old(deviceCache)[name := Added(old(Cached(name)), Convert(u, nodeName, now))]
      ensures OnePerType(typeOf) && old(AllInStep()) ==>
              (AllInStep() <==> name in deviceTypes || SameShown(old(deviceCache), name, Cached(name), nodeName))
      ensures OnePerType(typeOf) && old(AllInStep())
              && DistinctShown(old(Cached(name)), nodeName) && DistinctShown(Cached(name), nodeName) ==>
              (AllInStep() <==>
                name in deviceTypes || AddUnseen(old(deviceCache), name, Convert(u, nodeName, now), nodeName))
    {
      var device := Convert(u, nodeName, now);
      if DistinctShown(Cached(name), nodeName) && DistinctShown(Added(Cached(name), device), nodeName) {
        AddUnseenIff(deviceCache, name, device, nodeName);
      }
      var current := if name in deviceCache then deviceCache[name] else [];
      var i := FindDeviceIndex(name, device.serial, device.path);
      if i != -1 {
        current := current[i := device];
      } else {
        current := current + [device];
      }
      Store(name, current);
    }

    method HandleDeviceRemove(name: string, u: UsbDevice, now: int)
      requires Valid()
      modifies `deviceCache, `deviceLookup, `plugins
      ensures Valid()
      ensures deviceCache == if name in old(deviceCache)
                             then old(deviceCache)[name := Removed(old(Cached(name)), u, now)]
                             else old(deviceCache)
      ensures OnePerType(typeOf) && old(AllInStep()) && name in deviceTypes ==> AllInStep()
      ensures OnePerType(typeOf) && old(AllInStep()) && name in old(deviceCache) ==>
              (AllInStep() <==> name in deviceTypes || SameShown(old(deviceCache), name, Cached(name), nodeName))
      ensures OnePerType(typeOf) && old(AllInStep()) && DistinctShown(old(Cached(name)), nodeName) ==>
              (AllInStep() <==> name in deviceTypes || RemoveUnseen(old(Cached(name)), u, nodeName))
    {
      if name !in deviceCache { return; }
      if DistinctShown(Cached(name), nodeName) { RemoveUnseenIff(deviceCache, name, u, now, nodeName); }
      var current := deviceCache[name];
      var i := FindDeviceIndex(name, u.serial, u.path);
      if i == -1 {
        assert deviceCache[name := current] == deviceCache;
        return;
      }
      current := current[i := current[i].(available := false, lastSeen := now)];
      Store(name, current);
    }

    method MergeScanIntoCache(name: string, scan: seq<Device>, now: int) returns (merged: seq<Device>, changed: bool)
      ensures merged == Merged(Cached(name), scan, now)
      ensures changed == Changed(Cached(name), scan)
    {
      var byKey := IndexScan(scan);
      var existing := if name in deviceCache then deviceCache[name] else [];
      var matched;
      merged, matched, changed := RefreshAll(existing, scan, byKey, now);
      var extra := AppendUnknown(existing, scan, matched);
      merged := merged + extra;
      changed := changed || extra != [];
    }

    /** The periodic scan; a failed scan and an unchanged merge leave everything alone. */
    method ReconcileHSMDeviceScan(name: string, deviceType: string, scan: Option<seq<Device>>, now: int)
      requires Valid() && deviceType == typeOf(name)
      modifies `deviceCache, `deviceLookup, `plugins
      ensures Valid()
      ensures scan.None? ==> deviceCache == old(deviceCache)
      ensures scan.Some? ==> Cached(name) == Adopted(old(Cached(name)), scan.value, now)
      ensures forall n :: n != name ==> Cached(n) == old(Cached(n))
      ensures OnePerType(typeOf) && old(AllInStep()) ==> AllInStep()
    {
      if scan.None? { return; }
      var merged, changed := MergeScanIntoCache(name, scan.value, now);
      if !changed { return; }
      UpdateDeviceCache(name, merged);
      UpdateDevicePluginByType(deviceType, merged);
      if OnePerType(typeOf) && old(AllInStep()) {
        ShownAfterUpdate(typeOf, old(deviceCache), old(plugins), nodeName, name, merged);
      }
    }

    method CleanupOne(name: string, now: int)
      requires Valid() && name in deviceCache
      modifies `deviceCache, `deviceLookup
      ensures Valid() && deviceCache == old(deviceCache)[name := Kept(old(deviceCache)[name], now)]
    {
      var active, cleaned := DropStale(deviceCache[name], now);
      if cleaned > 0 { UpdateDeviceCache(name, active); }
    }

    method CleanupStaleDevices(now: int)
      requires Valid()
      modifies `deviceCache, `deviceLookup
      ensures Valid()
      ensures deviceCache == KeptIn(old(deviceCache), now)
      ensures old(AllInStep()) ==> AllInStep()
    {
      var names := KeysOf(deviceCache);
      ghost var before := deviceCache;
      for i := 0 to |names|
        invariant Elements(names[..i]) <= before.Keys
        invariant Valid() && deviceCache == KeptUpto(before, names[..i], now)
      {
        KeptNext(before, names, now, i);
        CleanupOne(names[i], now);
      }
      assert names[..|names|] == names;
      KeptAll(before, names, now);
      if old(AllInStep()) { ShownAfterCleanup(typeOf, old(deviceCache), plugins, nodeName, now); }
    }
  }
}
