/** The API write path: minting a version and writing to every device. */
module ApiWrite {
  import opened Checksum
  import opened Replica

  /** One write request.  `clients` are the devices a client could be opened
      for, `readable` those whose metadata can be read when the version is
      minted, `accepting` those whose write succeeds.  `deleted` is the
      sync.deleted label when the request supplies it. */
  datatype Request = Request(
    clients: set<string>,
    readable: set<string>,
    accepting: set<string>,
    data: SecretData,
    now: int,
    deleted: bool)

  ghost predicate IsNewestVersion(slots: Slots, devices: set<string>, v: Int64)
  {
    && v >= 0
    && (forall d :: d in devices && d in slots && slots[d].Copy? ==> MetadataVersion(slots[d].labels) <= v)
    && (v > 0 ==> exists d :: d in devices && d in slots && slots[d].Copy? && MetadataVersion(slots[d].labels) == v)
  }

  /** int64 addition of one. */
  function Increment(v: Int64): Int64
  {
    if v == MAX_INT64 then MIN_INT64 else v + 1
  }

  lemma {:induction false} NewestVersionExists(slots: Slots, devices: set<string>)
    ensures exists v :: IsNewestVersion(slots, devices, v)
  {
    if devices == {} {
      assert IsNewestVersion(slots, devices, 0);
    } else {
      var d :| d in devices;
      NewestVersionExists(slots, devices - {d});
      var v :| IsNewestVersion(slots, devices - {d}, v);
      if d in slots && slots[d].Copy? && MetadataVersion(slots[d].labels) > v {
        assert IsNewestVersion(slots, devices, MetadataVersion(slots[d].labels));
      } else {
        NewestVersionGrows(slots, devices, d, v);
      }
    }
  }

  lemma NewestVersionGrows(slots: Slots, devices: set<string>, d: string, v: Int64)
    requires d in devices && IsNewestVersion(slots, devices - {d}, v)
    requires d in slots && slots[d].Copy? ==> MetadataVersion(slots[d].labels) <= v
    ensures IsNewestVersion(slots, devices, v)
  {
    if v > 0 {
      var e :| e in devices - {d} && e in slots && slots[e].Copy? && MetadataVersion(slots[e].labels) == v;
      assert e in devices;
    }
  }

  /** The highest version any of the devices holds, 0 if none does. */
  ghost function NewestVersion(slots: Slots, devices: set<string>): (v: Int64)
    ensures IsNewestVersion(slots, devices, v)
  {
    NewestVersionExists(slots, devices);
    var v :| IsNewestVersion(slots, devices, v);
    v
  }

  lemma NewestVersionUnique(slots: Slots, devices: set<string>, v: Int64, v': Int64)
    requires IsNewestVersion(slots, devices, v) && IsNewestVersion(slots, devices, v')
    ensures v == v'
  {}

  ghost function Minted(slots: Slots, req: Request): Int64
  {
    Increment(NewestVersion(slots, req.clients * req.readable))
  }

  /** At the largest 64-bit integer the counter wraps: the write then carries the least version there is, so that
      no copy is older. */
  lemma MintedWraps(slots: Slots, req: Request, d: string)
    requires d in slots && d in req.clients * req.readable && slots[d].Copy?
    requires slots[d].labels.version == Counter(0x7FFF_FFFF_FFFF_FFFF)
    ensures Minted(slots, req) == -0x8000_0000_0000_0000
    ensures forall e :: e in slots && slots[e].Copy? ==> MetadataVersion(slots[e].labels) >= Minted(slots, req)
  {}

  ghost function Stored(slots: Slots, req: Request): Slot
  {
    Copy(req.data, Labels(Counter(Minted(slots, req)), Some(req.now), req.deleted))
  }

  ghost function Accepting(slots: Slots, req: Request): set<string>
  {
    slots.Keys * req.clients * req.accepting
  }

  ghost function AfterWrite(slots: Slots, req: Request): Slots
  {
    map d | d in slots :: if d in Accepting(slots, req) then Stored(slots, req) else slots[d]
  }

  /** One delete request.  `erasing` are the devices whose copy could be deleted, `accepting` those that took
      the tombstone written after that. */
  datatype Removal = Removal(clients: set<string>, erasing: set<string>, accepting: set<string>, now: int)

  /** What a delete leaves on one device: a tombstone, which has no data and version 0; nothing, if only the
      first of the two calls succeeds; or what was there. */
  function Remains(slot: Slot, d: string, req: Removal): Slot
  {
    if d !in req.clients then slot
    else if d in req.accepting then Copy(map[], Labels(Counter(0), Some(req.now), true))
    else if d in req.erasing then Absent
    else slot
  }

  ghost function AfterDelete(slots: Slots, req: Removal): Slots
  {
    map d | d in slots :: Remains(slots[d], d, req)
  }

  /** The proxy and the devices behind it. */
  class ProxyClient {
    var slots: Slots

    constructor (slots: Slots)
      ensures this.slots == slots
    {
      this.slots := slots;
    }

    method NextVersion(clients: set<string>, readable: set<string>) returns (version: Int64)
      ensures version == Increment(NewestVersion(slots, clients * readable))
    {
      var maxVersion: Int64 := 0;
      var rest := clients;
      while rest != {}
        invariant rest <= clients
        invariant IsNewestVersion(slots, (clients - rest) * readable, maxVersion)
        decreases rest
      {
        var d :| d in rest;
        ghost var before, after := (clients - rest) * readable, (clients - (rest - {d})) * readable;
        assert after == if d in readable then before + {d} else before;
        if d in readable && d in slots && slots[d].Copy? && MetadataVersion(slots[d].labels) > maxVersion {
          maxVersion := MetadataVersion(slots[d].labels);
          assert d in after;
        } else if d in readable {
          assert after - {d} == before;
          NewestVersionGrows(slots, after, d, maxVersion);
        }
        rest := rest - {d};
      }
      assert clients - {} == clients;
      NewestVersionUnique(slots, clients * readable, maxVersion, NewestVersion(slots, clients * readable));
      version := if maxVersion == MAX_INT64 then MIN_INT64 else maxVersion + 1;
    }

    /** Mint a version, write everywhere, succeed if any device accepted. */
    method WriteSecret(req: Request) returns (ok: bool)
      modifies this
      ensures slots == AfterWrite(old(slots), req)
      ensures ok <==> Accepting(old(slots), req) != {}
      ensures forall d :: d in old(slots) && d in req.clients && d in req.accepting ==>
        && d in slots && slots[d].Copy? && slots[d].data == req.data
        && slots[d].labels.time == Some(req.now) && slots[d].labels.deleted == req.deleted
      ensures forall d :: d in old(slots) && !(d in req.clients && d in req.accepting) ==>
        d in slots && slots[d] == old(slots)[d]
    {
      var version := NextVersion(req.clients, req.readable);
      ghost var before := slots;
      var copy := Copy(req.data, Labels(Counter(version), Some(req.now), req.deleted));
      var successful := 0;
      var rest := req.clients;
      while rest != {}
        invariant rest <= req.clients && slots.Keys == before.Keys
        invariant forall d :: d in before ==>
          slots[d] == if d in Accepting(before, req) && d !in rest then copy else before[d]
        invariant successful >= 0 && (successful == 0 <==> Accepting(before, req) <= rest)
        decreases rest
      {
        var d :| d in rest;
        if d in slots && d in req.accepting {
          slots := slots[d := copy];
          successful := successful + 1;
          assert d in Accepting(before, req);
        }
        rest := rest - {d};
      }
      ok := successful > 0;
      assert slots == AfterWrite(before, req);
    }

    /** Delete the copy and write a tombstone everywhere, succeed if any device took the tombstone. */
    method DeleteSecret(req: Removal) returns (ok: bool)
      modifies this
      ensures slots == AfterDelete(old(slots), req)
      ensures ok <==> old(slots).Keys * req.clients * req.accepting != {}
      ensures forall d :: d in old(slots) && d in req.clients && d in req.accepting ==>
        && d in slots && slots[d].Copy? && slots[d].data == map[] && MetadataVersion(slots[d].labels) == 0
        && slots[d].labels.time == Some(req.now) && slots[d].labels.deleted
    {
      ghost var before := slots;
      var successful := 0;
      var rest := req.clients;
      while rest != {}
        invariant rest <= req.clients && slots.Keys == before.Keys
        invariant forall d :: d in before ==> slots[d] == if d in rest then before[d] else Remains(before[d], d, req)
        invariant successful >= 0 && (successful == 0 <==> before.Keys * req.clients * req.accepting <= rest)
        decreases rest
      {
        var d :| d in rest;
        if d in slots {
          if d in req.erasing { slots := slots[d := Absent]; }
          if d in req.accepting {
            slots := slots[d := Copy(map[], Labels(Counter(0), Some(req.now), true))];
            successful := successful + 1;
            assert d in before.Keys * req.clients * req.accepting;
          }
        }
        rest := rest - {d};
      }
      ok := successful > 0;
      assert slots == AfterDelete(before, req);
    }
  }

  // --------------------------------------------------------------- durability

  /** The write reads every device's version before it mints its own. */
  ghost predicate ReadsAll(slots: Slots, req: Request)
  {
    slots.Keys <= req.clients * req.readable && NewestVersion(slots, req.clients * req.readable) < MAX_INT64
  }
}
