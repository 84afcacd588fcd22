/** The discovery agent's device cache, its lookup index and the device list it
hands to the device plugin.
*/
module Discovery {
  import opened Replica

  const GRACE_SECONDS := 300

  datatype Device = Device(serial: string, path: string, node: string, lastSeen: int, available: bool, info: string)

  /** What the bus reports about a device. */
  datatype UsbDevice = UsbDevice(serial: string, path: string, info: string)

  type Index = map<string, nat>

  function Convert(u: UsbDevice, node: string, now: int): Device
  {
    Device(u.serial, u.path, node, now, true, u.info)
  }

  function SerialKey(serial: string): string { "serial:" + serial }

  function PathKey(path: string): string { "path:" + path }

  lemma KeysApart(a: string, b: string)
    ensures SerialKey(a) != PathKey(b)
    ensures SerialKey(a) == SerialKey(b) ==> a == b
    ensures PathKey(a) == PathKey(b) ==> a == b
  {
    assert SerialKey(a)[0] == 's' && PathKey(b)[0] == 'p';
    assert SerialKey(a)[7..] == a && SerialKey(b)[7..] == b;
    assert PathKey(a)[5..] == a && PathKey(b)[5..] == b;
  }

  // ------------------------------------------------------------ lookup index

  function Indexed(index: Index, d: Device, i: nat): Index
  {
    var index' := if d.serial != "" then index[SerialKey(d.serial) := i] else index;
    if d.path != "" then index'[PathKey(d.path) := i] else index'
  }

  /** The index the cache should have. */
  function IndexOf(devices: seq<Device>): Index
  {
    if devices == [] then map[]
    else Indexed(IndexOf(devices[..|devices| - 1]), devices[|devices| - 1], |devices| - 1)
  }

  /** The last position holding the serial, or -1. */
  function LastSerial(devices: seq<Device>, serial: string): (i: int)
    ensures -1 <= i < |devices|
    ensures i >= 0 ==> devices[i].serial == serial
    ensures forall j :: i < j < |devices| ==> devices[j].serial != serial
  {
    if devices == [] then -1
    else if devices[|devices| - 1].serial == serial then |devices| - 1
    else LastSerial(devices[..|devices| - 1], serial)
  }

  /** The last position holding the path, or -1. */
  function LastPath(devices: seq<Device>, path: string): (i: int)
    ensures -1 <= i < |devices|
    ensures i >= 0 ==> devices[i].path == path
    ensures forall j :: i < j < |devices| ==> devices[j].path != path
  {
    if devices == [] then -1
    else if devices[|devices| - 1].path == path then |devices| - 1
    else LastPath(devices[..|devices| - 1], path)
  }

  /** Linear search: the last device with the same serial, else the last with the same path. */
  function Search(devices: seq<Device>, serial: string, path: string): (i: int)
    ensures -1 <= i < |devices|
  {
    if serial != "" && LastSerial(devices, serial) >= 0 then LastSerial(devices, serial)
    else if path != "" then LastPath(devices, path)
    else -1
  }

  function Lookup(index: Index, key: string): int
  {
    if key in index then index[key] else -1
  }

  lemma {:induction false} IndexIsSearch(devices: seq<Device>, serial: string, path: string)
    ensures serial != "" ==> Lookup(IndexOf(devices), SerialKey(serial)) == LastSerial(devices, serial)
    ensures path != "" ==> Lookup(IndexOf(devices), PathKey(path)) == LastPath(devices, path)
  {
    if devices != [] {
      var init, last := devices[..|devices| - 1], devices[|devices| - 1];
      IndexIsSearch(init, serial, path);
      KeysApart(serial, last.path);
      KeysApart(last.serial, path);
      KeysApart(serial, last.serial);
      KeysApart(path, last.path);
    }
  }

  // ------------------------------------------------------------ cache updates

  function Added(devices: seq<Device>, d: Device): seq<Device>
  {
    var i := Search(devices, d.serial, d.path);
    if i >= 0 then devices[i := d] else devices + [d]
  }

  function Removed(devices: seq<Device>, u: UsbDevice, now: int): seq<Device>
  {
    var i := Search(devices, u.serial, u.path);
    if i >= 0 then devices[i := devices[i].(available := false, lastSeen := now)] else devices
  }

  function Stale(d: Device, now: int): bool
  {
    !d.available && now - d.lastSeen > GRACE_SECONDS
  }

  /** The devices a cleanup leaves. */
  function Kept(devices: seq<Device>, now: int): seq<Device>
  {
    if devices == [] then []
    else
      var last := devices[|devices| - 1];
      Kept(devices[..|devices| - 1], now) + (if Stale(last, now) then [] else [last])
  }

  function Key(d: Device): string
  {
    if d.serial != "" then SerialKey(d.serial) else PathKey(d.path)
  }

  predicate HasKey(devices: seq<Device>, k: string)
  {
    exists i :: 0 <= i < |devices| && Key(devices[i]) == k
  }

  /** The last scanned device with the key. */
  function LastByKey(scan: seq<Device>, k: string): (r: Option<Device>)
    ensures r.Some? <==> HasKey(scan, k)
    ensures r.Some? ==> r.value in scan && Key(r.value) == k
  {
    if scan == [] then None
    else
      var init, last := scan[..|scan| - 1], scan[|scan| - 1];
      assert forall i :: 0 <= i < |init| ==> init[i] == scan[i];
      if Key(last) == k then Some(last) else LastByKey(init, k)
  }

  /** A cached device after a scan: refreshed when seen, stamped lost when newly missing. */
  function Refreshed(d: Device, scan: seq<Device>, now: int): Device
  {
    match LastByKey(scan, Key(d))
    case Some(seen) => seen.(available := true)
    case None => if d.available then d.(available := false, lastSeen := now) else d
  }

  function AllRefreshed(devices: seq<Device>, scan: seq<Device>, now: int): (r: seq<Device>)
    ensures |r| == |devices|
    ensures forall i :: 0 <= i < |devices| ==> r[i] == Refreshed(devices[i], scan, now)
  {
    if devices == [] then []
    else AllRefreshed(devices[..|devices| - 1], scan, now) + [Refreshed(devices[|devices| - 1], scan, now)]
  }

  /** The scanned devices the cache does not know, in scan order. */
  function Unknown(devices: seq<Device>, scan: seq<Device>): seq<Device>
  {
    if scan == [] then []
    else
      var last := scan[|scan| - 1];
      Unknown(devices, scan[..|scan| - 1]) + (if HasKey(devices, Key(last)) then [] else [last.(available := true)])
  }

  function Merged(devices: seq<Device>, scan: seq<Device>, now: int): seq<Device>
  {
    AllRefreshed(devices, scan, now) + Unknown(devices, scan)
  }

  /** The scan says something new about a cached device. */
  predicate Touched(d: Device, scan: seq<Device>)
  {
    match LastByKey(scan, Key(d))
    case Some(seen) => d.path != seen.path || !d.available
    case None => d.available
  }

  predicate Changed(devices: seq<Device>, scan: seq<Device>)
  {
    (exists i :: 0 <= i < |devices| && Touched(devices[i], scan)) || Unknown(devices, scan) != []
  }

  /** The cache after one periodic scan: an unchanged merge is discarded. */
  function Adopted(devices: seq<Device>, scan: seq<Device>, now: int): seq<Device>
  {
    if Changed(devices, scan) then Merged(devices, scan, now) else devices
  }

  // ------------------------------------------------------------ plugin view

  /** The plugin's record of a device. */
  datatype Advertised = Advertised(path: string, serial: string, node: string, info: string)

  function Underscored(path: string): string
  {
    if path == "" then ""
    else Underscored(path[..|path| - 1]) + [if path[|path| - 1] == '/' then '_' else path[|path| - 1]]
  }

  function DeviceId(d: Device): string
  {
    d.node + "-" + Underscored(d.path) + (if d.serial != "" then "-" + d.serial else "")
  }

  lemma {:induction false} UnderscoredAt(path: string, i: nat)
    requires i < |path|
    ensures |Underscored(path)| == |path|
    ensures Underscored(path)[i] == if path[i] == '/' then '_' else path[i]
  {
    if i < |path| - 1 {
      UnderscoredAt(path[..|path| - 1], i);
    } else if |path| > 1 {
      UnderscoredAt(path[..|path| - 1], 0);
    }
  }

  /** An identifier has no slash beyond those of the node's name and the serial. */
  lemma NoSlashInId(d: Device)
    requires '/' !in d.node && '/' !in d.serial
    ensures '/' !in DeviceId(d)
  {
    forall i | 0 <= i < |Underscored(d.path)| ensures Underscored(d.path)[i] != '/' {
      UnderscoredLength(d.path);
      UnderscoredAt(d.path, i);
    }
  }

  lemma UnderscoredLength(path: string)
    ensures |Underscored(path)| == |path|
  {
    if path != "" { UnderscoredAt(path, 0); }
  }

  /** Devices at one path of one node are told apart by their serials, and a device without one from the others. */
  lemma SameIdSameSerial(d: Device, e: Device)
    requires d.node == e.node && d.path == e.path
    ensures DeviceId(d) == DeviceId(e) <==> d.serial == e.serial
  {
    var front := d.node + "-" + Underscored(d.path);
    assert DeviceId(d)[|front|..] == if d.serial != "" then "-" + d.serial else "";
    assert DeviceId(e)[|front|..] == if e.serial != "" then "-" + e.serial else "";
    if d.serial != "" && e.serial != "" {
      assert ("-" + d.serial)[1..] == d.serial && ("-" + e.serial)[1..] == e.serial;
    }
  }

  predicate OnNode(d: Device, node: string)
  {
    d.node == node && d.available
  }

  function NodeDevices(devices: seq<Device>, node: string): seq<Device>
  {
    if devices == [] then []
    else
      var last := devices[|devices| - 1];
      NodeDevices(devices[..|devices| - 1], node) + (if OnNode(last, node) then [last] else [])
  }

  function Record(d: Device): Advertised
  {
    Advertised(d.path, d.serial, d.node, d.info)
  }

  function Advertise(devices: seq<Device>): map<string, Advertised>
  {
    if devices == [] then map[]
    else
      var last := devices[|devices| - 1];
      Advertise(devices[..|devices| - 1])[DeviceId(last) := Record(last)]
  }

  /** The plugin list a cache calls for. */
  function Advertisement(devices: seq<Device>, node: string): map<string, Advertised>
  {
    Advertise(NodeDevices(devices, node))
  }

  /** A cleanup removes nothing the plugin shows. */
  lemma {:induction false} KeptOnNode(devices: seq<Device>, node: string, now: int)
    ensures NodeDevices(Kept(devices, now), node) == NodeDevices(devices, node)
  {
    if devices != [] {
      var init, last := devices[..|devices| - 1], devices[|devices| - 1];
      KeptOnNode(init, node, now);
      var kept := Kept(init, now);
      if !Stale(last, now) {
        assert (kept + [last])[..|kept|] == kept;
      } else {
        assert kept + [] == kept;
      }
    }
  }

  predicate DistinctIds(devices: seq<Device>)
  {
    forall i, j :: 0 <= i < j < |devices| ==> DeviceId(devices[i]) != DeviceId(devices[j])
  }

  lemma {:induction false} AdvertisedAt(devices: seq<Device>, i: nat)
    requires DistinctIds(devices) && i < |devices|
    ensures DeviceId(devices[i]) in Advertise(devices) && Advertise(devices)[DeviceId(devices[i])] == Record(devices[i])
  {
    if i < |devices| - 1 {
      assert devices[..|devices| - 1][i] == devices[i];
      AdvertisedAt(devices[..|devices| - 1], i);
    }
  }

  lemma {:induction false} AdvertisedFrom(devices: seq<Device>, id: string) returns (i: nat)
    requires id in Advertise(devices)
    ensures i < |devices| && DeviceId(devices[i]) == id
  {
    if id == DeviceId(devices[|devices| - 1]) {
      i := |devices| - 1;
    } else {
      i := AdvertisedFrom(devices[..|devices| - 1], id);
    }
  }

  /** With distinct identifiers the plugin list holds exactly the given devices. */
  lemma AdvertisesExactly(devices: seq<Device>)
    requires DistinctIds(devices)
    ensures forall i :: 0 <= i < |devices| ==> DeviceId(devices[i]) in Advertise(devices)
    ensures forall i :: 0 <= i < |devices| ==>
      Advertise(devices)[DeviceId(devices[i])] ==
        Advertised(devices[i].path, devices[i].serial, devices[i].node, devices[i].info)
    ensures forall id :: id in Advertise(devices) ==> exists i :: 0 <= i < |devices| && DeviceId(devices[i]) == id
  {
    forall i | 0 <= i < |devices|
      ensures DeviceId(devices[i]) in Advertise(devices)
        && Advertise(devices)[DeviceId(devices[i])] == Record(devices[i])
    { AdvertisedAt(devices, i); }
    forall id | id in Advertise(devices) ensures exists i :: 0 <= i < |devices| && DeviceId(devices[i]) == id {
      var i := AdvertisedFrom(devices, id);
    }
  }

  // ----------------------------------------------- what a change shows of itself

  /** No two devices shown on the node share an identifier. */
  predicate DistinctShown(devices: seq<Device>, node: string)
  {
    forall i, j :: 0 <= i < j < |devices| && OnNode(devices[i], node) && OnNode(devices[j], node) ==>
      DeviceId(devices[i]) != DeviceId(devices[j])
  }

  lemma AdvertisementSnoc(devices: seq<Device>, d: Device, node: string)
    ensures Advertisement(devices + [d], node) ==
      if OnNode(d, node) then Advertisement(devices, node)[DeviceId(d) := Record(d)] else Advertisement(devices, node)
  {
    assert (devices + [d])[..|devices|] == devices;
    var here := NodeDevices(devices, node);
    if OnNode(d, node) {
      assert (here + [d])[..|here|] == here;
    } else {
      assert here + [] == here;
    }
  }

  lemma {:induction false} ShownAt(devices: seq<Device>, node: string, i: nat)
    requires DistinctShown(devices, node) && i < |devices| && OnNode(devices[i], node)
    ensures DeviceId(devices[i]) in Advertisement(devices, node)
    ensures Advertisement(devices, node)[DeviceId(devices[i])] == Record(devices[i])
  {
    var init, last := devices[..|devices| - 1], devices[|devices| - 1];
    assert devices == init + [last];
    AdvertisementSnoc(init, last, node);
    if i < |init| {
      assert init[i] == devices[i];
      ShownAt(init, node, i);
    }
  }

  lemma {:induction false} ShownFrom(devices: seq<Device>, node: string, id: string) returns (i: nat)
    requires id in Advertisement(devices, node)
    ensures i < |devices| && OnNode(devices[i], node) && DeviceId(devices[i]) == id
  {
    var init, last := devices[..|devices| - 1], devices[|devices| - 1];
    assert devices == init + [last];
    AdvertisementSnoc(init, last, node);
    if OnNode(last, node) && DeviceId(last) == id {
      i := |devices| - 1;
    } else {
      i := ShownFrom(init, node, id);
      assert devices[i] == init[i];
    }
  }

  /** Two records that look the same to the plugin: neither is shown, or both with the same contents. */
  predicate LooksSame(m: Device, d: Device, node: string)
  {
    OnNode(m, node) == OnNode(d, node) && (OnNode(m, node) ==> Record(m) == Record(d))
  }

  lemma {:induction false} SameLookSameList(devices: seq<Device>, i: nat, d: Device, node: string)
    requires i < |devices| && LooksSame(devices[i], d, node)
    ensures Advertisement(devices[i := d], node) == Advertisement(devices, node)
  {
    var init, last := devices[..|devices| - 1], devices[|devices| - 1];
    assert devices == init + [last];
    AdvertisementSnoc(init, last, node);
    if i == |init| {
      assert devices[i := d] == init + [d];
      AdvertisementSnoc(init, d, node);
    } else {
      assert devices[i := d] == init[i := d] + [last];
      AdvertisementSnoc(init[i := d], last, node);
      SameLookSameList(init, i, d, node);
    }
  }

  /** An identifier that only the device at `i` shows is gone once that device shows another or none. */
  lemma NotShownElsewhere(devices: seq<Device>, i: nat, d: Device, node: string)
    requires DistinctShown(devices, node) && i < |devices| && OnNode(devices[i], node)
    requires !OnNode(d, node) || DeviceId(d) != DeviceId(devices[i])
    ensures DeviceId(devices[i]) !in Advertisement(devices[i := d], node)
  {
    if DeviceId(devices[i]) in Advertisement(devices[i := d], node) {
      var j := ShownFrom(devices[i := d], node, DeviceId(devices[i]));
    }
  }

  /** Replacing one record leaves the plugin's list alone exactly when the two look the same. */
  lemma ReplacedIff(devices: seq<Device>, i: nat, d: Device, node: string)
    requires i < |devices| && DistinctShown(devices, node) && DistinctShown(devices[i := d], node)
    ensures Advertisement(devices[i := d], node) == Advertisement(devices, node) <==> LooksSame(devices[i], d, node)
  {
    var m, changed := devices[i], devices[i := d];
    if LooksSame(m, d, node) {
      SameLookSameList(devices, i, d, node);
    } else if OnNode(m, node) && (!OnNode(d, node) || DeviceId(d) != DeviceId(m)) {
      ShownAt(devices, node, i);
      NotShownElsewhere(devices, i, d, node);
    } else if OnNode(m, node) {
      ShownAt(devices, node, i);
      ShownAt(changed, node, i);
    } else {
      ShownAt(changed, node, i);
      assert changed[i := m] == devices;
      NotShownElsewhere(changed, i, m, node);
    }
  }

  lemma AppendedIff(devices: seq<Device>, d: Device, node: string)
    requires DistinctShown(devices + [d], node)
    ensures Advertisement(devices + [d], node) == Advertisement(devices, node) <==> !OnNode(d, node)
  {
    AdvertisementSnoc(devices, d, node);
    if OnNode(d, node) && DeviceId(d) in Advertisement(devices, node) {
      var j := ShownFrom(devices, node, DeviceId(d));
    }
  }
}
