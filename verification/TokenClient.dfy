/** The PKCS #11 client: a session that moves in and out of search mode over a
set of token objects, and the secret operations built on it.

Any library call may fail.  The ghost counter `faults` counts the calls that
did, so a contract can speak about undisturbed calls; `wedged` records that
C_FindObjectsFinal has failed.
*/
module TokenClient {
  import opened Checksum
  import opened Replica
  import opened LabelStore

  const SEARCH_LIMIT := 100

  datatype Object = Object(tag: string, value: string)

  /** Token objects by handle. */
  type Objects = map<nat, Object>

  ghost predicate UniqueLabels(objects: Objects)
  {
    forall h, h' :: h in objects && h' in objects && objects[h].tag == objects[h'].tag ==> h == h'
  }

  ghost predicate Labelled(objects: Objects, l: string)
  {
    exists h :: h in objects && objects[h].tag == l
  }

  /** The objects have unique, non-empty labels and are, by label, the token `t`. */
  ghost predicate Shows(objects: Objects, t: Token)
  {
    && UniqueLabels(objects)
    && (forall h :: h in objects ==> objects[h].tag != "" && At(t, objects[h].tag) == Some(objects[h].value))
    && (forall l :: l in t ==> Labelled(objects, l))
  }

  /** The filter of the prefix search: objects without a label are skipped. */
  predicate Matches(tag: string, path: string)
  {
    tag != "" && HasPrefix(tag, path)
  }

  ghost predicate Matching(objects: Objects, path: string, h: nat)
  {
    h in objects && Matches(objects[h].tag, path)
  }

  /** The search template: a label, or none to select every object. */
  predicate Selected(objects: Objects, tag: Option<string>, h: nat)
  {
    h in objects && (tag.Some? ==> objects[h].tag == tag.value)
  }

  function Purged(objects: Objects, path: string): Objects
  {
    map h | h in objects && !Matches(objects[h].tag, path) :: objects[h]
  }

  ghost predicate DistinctHandles(hs: seq<nat>)
  {
    forall i, j :: 0 <= i < j < |hs| ==> hs[i] != hs[j]
  }

  // -------------------------------------------------------- views of changes

  lemma Created(objects: Objects, t: Token, h: nat, o: Object)
    requires Shows(objects, t) && h !in objects && o.tag !in t && o.tag != ""
    ensures Shows(objects[h := o], t[o.tag := o.value])
  {
    var objects', t' := objects[h := o], t[o.tag := o.value];
    forall l | l in t' ensures Labelled(objects', l) {
      if l == o.tag {
        assert objects'[h].tag == l;
      } else {
        var i :| i in objects && objects[i].tag == l;
        assert objects'[i].tag == l;
      }
    }
  }

  lemma PurgedShows(objects: Objects, t: Token, path: string)
    requires Shows(objects, t)
    ensures Shows(Purged(objects, path), Without(t, path))
  {
    var objects', t' := Purged(objects, path), Without(t, path);
    forall l | l in t' ensures Labelled(objects', l) {
      var i :| i in objects && objects[i].tag == l;
      assert objects'[i].tag == l;
    }
  }

  lemma Destroyed(objects: Objects, t: Token, h: nat)
    requires Shows(objects, t) && h in objects
    ensures Shows(objects - {h}, t - {objects[h].tag})
  {
    var objects', t' := objects - {h}, t - {objects[h].tag};
    forall l | l in t' ensures Labelled(objects', l) {
      var i :| i in objects && objects[i].tag == l;
      assert objects'[i].tag == l;
    }
  }

  /** What an undisturbed write at `path` makes of the token. */
  ghost predicate Rewritten(codec: Codec, before: Objects, after: Objects, path: string, e: Entry)
  {
    forall t :: Shows(before, t) ==> Shows(after, Written(codec, t, path, e))
  }

  lemma WrittenNothing(codec: Codec, t: Token, path: string)
    ensures Written(codec, t, path, Entry(map[], None)) == Without(t, path)
  {}

  lemma PurgedIsRewritten(codec: Codec, before: Objects, path: string)
    ensures Rewritten(codec, before, Purged(before, path), path, Entry(map[], None))
  {
    forall t | Shows(before, t) ensures Shows(Purged(before, path), Written(codec, t, path, Entry(map[], None))) {
      PurgedShows(before, t, path);
      WrittenNothing(codec, t, path);
    }
  }

  lemma FlatDataPut(path: string, data: SecretData, k: string, v: string)
    requires k !in data
    ensures LabelOf(path, k) !in FlatData(path, data)
    ensures FlatData(path, data[k := v]) == FlatData(path, data)[LabelOf(path, k) := v]
  {
    FlatDataAt(path, data, k);
    var a, b := FlatData(path, data[k := v]), FlatData(path, data)[LabelOf(path, k) := v];
    forall l ensures At(a, l) == At(b, l) { FlatDataPutAt(path, data, k, v, l); }
    SameLookups(a, b);
  }

  lemma FlatDataPutAt(path: string, data: SecretData, k: string, v: string, l: string)
    requires k !in data
    ensures At(FlatData(path, data[k := v]), l) == At(FlatData(path, data)[LabelOf(path, k) := v], l)
  {
    var data' := data[k := v];
    if k' :| k' in data' && LabelOf(path, k') == l {
      FlatDataAt(path, data', k');
      FlatDataAt(path, data, k');
      LabelInjective(path, k, k');
    }
  }

  lemma FlatNoMetadata(codec: Codec, path: string, data: SecretData)
    ensures Flat(codec, path, Entry(data, None)) == FlatData(path, data)
  {}

  lemma FlatSomeMetadata(codec: Codec, path: string, data: SecretData, m: Metadata)
    ensures Flat(codec, path, Entry(data, Some(m)))
         == FlatData(path, data)[path + METADATA_SUFFIX := codec.marshal(m)]
  {}

  lemma PutOver(base: Token, flat: Token, l: string, v: string)
    requires l !in base && l !in flat
    ensures l !in base + flat && base + flat[l := v] == (base + flat)[l := v]
  {}

  lemma PutKey(codec: Codec, t: Token, path: string, data: SecretData, k: string, v: string)
    requires k !in data
    ensures LabelOf(path, k) !in Written(codec, t, path, Entry(data, None))
    ensures Written(codec, t, path, Entry(data[k := v], None))
         == Written(codec, t, path, Entry(data, None))[LabelOf(path, k) := v]
  {
    FlatDataPut(path, data, k, v);
    FlatNoMetadata(codec, path, data);
    FlatNoMetadata(codec, path, data[k := v]);
    assert HasPrefix(LabelOf(path, k), path);
    PutOver(Without(t, path), FlatData(path, data), LabelOf(path, k), v);
  }

  lemma PutMetadata(codec: Codec, t: Token, path: string, data: SecretData, m: Metadata)
    requires "_metadata" !in data
    ensures path + METADATA_SUFFIX !in Written(codec, t, path, Entry(data, None))
    ensures Written(codec, t, path, Entry(data, Some(m)))
         == Written(codec, t, path, Entry(data, None))[path + METADATA_SUFFIX := codec.marshal(m)]
  {
    assert LabelOf(path, "_metadata") == path + METADATA_SUFFIX;
    FlatDataAt(path, data, "_metadata");
    FlatNoMetadata(codec, path, data);
    FlatSomeMetadata(codec, path, data, m);
    assert HasPrefix(path + METADATA_SUFFIX, path);
    PutOver(Without(t, path), FlatData(path, data), path + METADATA_SUFFIX, codec.marshal(m));
  }

  lemma RewrittenKey(codec: Codec, before: Objects, objects: Objects, path: string, data: SecretData, h: nat,
                     k: string, v: string)
    requires Rewritten(codec, before, objects, path, Entry(data, None))
    requires path != "" && k !in data && h !in objects
    ensures Rewritten(codec, before, objects[h := Object(LabelOf(path, k), v)], path, Entry(data[k := v], None))
  {
    forall t | Shows(before, t)
      ensures Shows(objects[h := Object(LabelOf(path, k), v)], Written(codec, t, path, Entry(data[k := v], None)))
    {
      PutKey(codec, t, path, data, k, v);
      Created(objects, Written(codec, t, path, Entry(data, None)), h, Object(LabelOf(path, k), v));
    }
  }

  lemma RewrittenMetadata(codec: Codec, before: Objects, objects: Objects, path: string, data: SecretData, h: nat,
                          m: Metadata)
    requires Rewritten(codec, before, objects, path, Entry(data, None))
    requires "_metadata" !in data && h !in objects
    ensures Rewritten(codec, before, objects[h := Object(path + METADATA_SUFFIX, codec.marshal(m))], path,
                      Entry(data, Some(m)))
  {
    forall t | Shows(before, t)
      ensures Shows(objects[h := Object(path + METADATA_SUFFIX, codec.marshal(m))],
                    Written(codec, t, path, Entry(data, Some(m))))
    {
      PutMetadata(codec, t, path, data, m);
      Created(objects, Written(codec, t, path, Entry(data, None)), h,
              Object(path + METADATA_SUFFIX, codec.marshal(m)));
    }
  }

  /** If `start` was the purged token, `after` holds the entry too. */
  ghost predicate Filled(codec: Codec, before: Objects, start: Objects, after: Objects, path: string, data: SecretData)
  {
    path != "" && Rewritten(codec, before, start, path, Entry(map[], None)) ==>
      Rewritten(codec, before, after, path, Entry(data, None))
  }

  lemma FilledKey(codec: Codec, before: Objects, start: Objects, objects: Objects, path: string, data: SecretData,
                  h: nat, k: string, v: string)
    requires Filled(codec, before, start, objects, path, data) && k !in data && h !in objects
    ensures Filled(codec, before, start, objects[h := Object(LabelOf(path, k), v)], path, data[k := v])
  {
    if path != "" && Rewritten(codec, before, start, path, Entry(map[], None)) {
      RewrittenKey(codec, before, objects, path, data, h, k, v);
    }
  }

  // --------------------------------------------------------- search results

  ghost predicate Genuine(objects: Objects, path: string, found: seq<Object>)
  {
    forall o :: o in found ==> exists h :: Matching(objects, path, h) && objects[h] == o
  }

  ghost predicate Complete(objects: Objects, path: string, found: seq<Object>)
  {
    forall h :: Matching(objects, path, h) ==> objects[h] in found
  }

  predicate IsData(tag: string, path: string)
  {
    HasPrefix(tag, path) && !HasSuffix(tag, METADATA_SUFFIX)
  }

  ghost predicate CameFrom(found: seq<Object>, path: string, k: string, v: string)
  {
    exists o :: o in found && IsData(o.tag, path) && KeyOf(path, o.tag) == k && o.value == v
  }

  ghost predicate Collected(found: seq<Object>, path: string, data: SecretData)
  {
    && (forall o :: o in found && IsData(o.tag, path) ==> KeyOf(path, o.tag) in data)
    && (forall k :: k in data ==> CameFrom(found, path, k, data[k]))
  }

  lemma CollectedMore(found: seq<Object>, o: Object, path: string, data: SecretData)
    requires Collected(found, path, data) && IsData(o.tag, path)
    ensures Collected(found + [o], path, data[KeyOf(path, o.tag) := o.value])
  {
    var data' := data[KeyOf(path, o.tag) := o.value];
    forall k | k in data' ensures CameFrom(found + [o], path, k, data'[k]) {
      if k == KeyOf(path, o.tag) {
        assert o in found + [o];
      } else {
        var p :| p in found && IsData(p.tag, path) && KeyOf(path, p.tag) == k && p.value == data[k];
        assert p in found + [o];
      }
    }
  }

  lemma CollectedSkip(found: seq<Object>, o: Object, path: string, data: SecretData)
    requires Collected(found, path, data) && !IsData(o.tag, path)
    ensures Collected(found + [o], path, data)
  {
    forall k | k in data ensures CameFrom(found + [o], path, k, data[k]) {
      var p :| p in found && IsData(p.tag, path) && KeyOf(path, p.tag) == k && p.value == data[k];
      assert p in found + [o];
    }
  }

  /** The keys and values read off a list of objects, a later object replacing an earlier one. */
  method CollectData(found: seq<Object>, path: string) returns (data: SecretData, matching: nat)
    ensures Collected(found, path, data)
    ensures matching == 0 <==> data == map[]
  {
    data, matching := map[], 0;
    for i := 0 to |found|
      invariant Collected(found[..i], path, data)
      invariant matching == 0 <==> data == map[]
    {
      var o := found[i];
      assert found[..i + 1] == found[..i] + [o];
      if !IsData(o.tag, path) {
        CollectedSkip(found[..i], o, path, data);
        continue;
      }
      CollectedMore(found[..i], o, path, data);
      matching := matching + 1;
      data := data[KeyOf(path, o.tag) := o.value];
      assert KeyOf(path, o.tag) in data;
    }
    assert found[..|found|] == found;
  }

  /** A read never invents a key or a value, even when objects could not be read. */
  lemma CollectedSupplied(objects: Objects, t: Token, path: string, found: seq<Object>, data: SecretData, k: string)
    requires Shows(objects, t) && Genuine(objects, path, found) && Collected(found, path, data) && k in data
    ensures Supplies(t, path, k, data[k])
  {
    assert CameFrom(found, path, k, data[k]);
    var o :| o in found && IsData(o.tag, path) && KeyOf(path, o.tag) == k && o.value == data[k];
    var h :| Matching(objects, path, h) && objects[h] == o;
    assert DataUnder(t, path, o.tag);
  }

  lemma CollectedCovers(objects: Objects, t: Token, path: string, found: seq<Object>, data: SecretData, tag: string)
    requires Shows(objects, t) && Complete(objects, path, found) && Collected(found, path, data)
    requires DataUnder(t, path, tag)
    ensures KeyOf(path, tag) in data
  {
    assert Labelled(objects, tag);
    var h :| h in objects && objects[h].tag == tag;
    assert Matching(objects, path, h);
  }

  lemma CollectedAnswers(objects: Objects, t: Token, path: string, found: seq<Object>, data: SecretData)
    requires Shows(objects, t) && Genuine(objects, path, found) && Complete(objects, path, found)
    requires Collected(found, path, data)
    ensures Answers(t, path, if data == map[] then None else Some(data))
  {
    forall k | k in data ensures Supplies(t, path, k, data[k]) {
      CollectedSupplied(objects, t, path, found, data, k);
    }
    forall tag | DataUnder(t, path, tag) ensures KeyOf(path, tag) in data {
      CollectedCovers(objects, t, path, found, data, tag);
    }
  }

  /** Every key of the answer is on the token. */
  ghost predicate Truthful(objects: Objects, path: string, data: SecretData)
  {
    forall t, k :: Shows(objects, t) && k in data ==> Supplies(t, path, k, data[k])
  }

  ghost predicate Exact(objects: Objects, path: string, r: Option<SecretData>)
  {
    forall t :: Shows(objects, t) ==> Answers(t, path, r)
  }

  lemma ReadIsTruthful(objects: Objects, path: string, found: seq<Object>, data: SecretData)
    requires Genuine(objects, path, found) && Collected(found, path, data)
    ensures Truthful(objects, path, data)
  {
    forall t, k | Shows(objects, t) && k in data ensures Supplies(t, path, k, data[k]) {
      CollectedSupplied(objects, t, path, found, data, k);
    }
  }

  lemma ReadIsExact(objects: Objects, path: string, found: seq<Object>, data: SecretData)
    requires Genuine(objects, path, found) && Complete(objects, path, found) && Collected(found, path, data)
    ensures Exact(objects, path, if data == map[] then None else Some(data))
  {
    forall t | Shows(objects, t) ensures Answers(t, path, if data == map[] then None else Some(data)) {
      CollectedAnswers(objects, t, path, found, data);
    }
  }

  // ---------------------------------------------------------------- listing

  method PathsOf(found: seq<Object>, prefix: string) returns (paths: set<string>)
    ensures paths == PathsFound(found, prefix)
  {
    paths := {};
    for i := 0 to |found|
      invariant paths == PathsFound(found[..i], prefix)
    {
      assert found[..i + 1] == found[..i] + [found[i]];
      if HasSuffix(found[i].tag, METADATA_SUFFIX) { continue; }
      var path := ParentPath(found[i].tag);
      if HasPrefix(path, prefix) { paths := paths + {path}; }
    }
    assert found[..|found|] == found;
  }

  ghost predicate ListsOnly(objects: Objects, prefix: string, paths: set<string>)
  {
    forall t :: Shows(objects, t) ==> paths <= Listed(t, prefix)
  }

  ghost predicate ListsAll(objects: Objects, prefix: string, paths: set<string>)
  {
    forall t :: Shows(objects, t) ==> paths == Listed(t, prefix)
  }

  /** The paths read off a list of objects. */
  ghost function PathsFound(found: seq<Object>, prefix: string): set<string>
  {
    set o | o in found && !HasSuffix(o.tag, METADATA_SUFFIX)
      && HasPrefix(ParentPath(o.tag), prefix) :: ParentPath(o.tag)
  }

  lemma ListGenuine(objects: Objects, t: Token, found: seq<Object>, prefix: string)
    requires Shows(objects, t) && Genuine(objects, "", found)
    ensures PathsFound(found, prefix) <= Listed(t, prefix)
  {
    forall p | p in PathsFound(found, prefix) ensures p in Listed(t, prefix) {
      var o :| o in found && !HasSuffix(o.tag, METADATA_SUFFIX) && HasPrefix(ParentPath(o.tag), prefix)
            && ParentPath(o.tag) == p;
      var h :| Matching(objects, "", h) && objects[h] == o;
      assert o.tag in t;
    }
  }

  lemma ListComplete(objects: Objects, t: Token, found: seq<Object>, prefix: string)
    requires Shows(objects, t) && Complete(objects, "", found)
    ensures Listed(t, prefix) <= PathsFound(found, prefix)
  {
    forall p | p in Listed(t, prefix) ensures p in PathsFound(found, prefix) {
      var l :| l in t && !HasSuffix(l, METADATA_SUFFIX) && HasPrefix(ParentPath(l), prefix) && ParentPath(l) == p;
      assert Labelled(objects, l);
      var h :| h in objects && objects[h].tag == l;
      assert Matching(objects, "", h);
    }
  }

  // --------------------------------------------------------------- metadata

  ghost predicate MetadataExact(codec: Codec, objects: Objects, path: string, r: Option<Metadata>)
  {
    forall t :: Shows(objects, t) ==> r == MetadataAt(codec, t, path)
  }

  method FirstLabelled(found: seq<Object>, tag: string) returns (r: Option<Object>)
    ensures r.Some? ==> r.value in found && r.value.tag == tag
    ensures r.None? ==> forall o :: o in found ==> o.tag != tag
  {
    for i := 0 to |found|
      invariant forall j :: 0 <= j < i ==> found[j].tag != tag
    {
      if found[i].tag == tag { return Some(found[i]); }
    }
    return None;
  }

  lemma MetadataFound(codec: Codec, objects: Objects, path: string, found: seq<Object>, o: Object)
    requires Genuine(objects, path + METADATA_SUFFIX, found) && o in found && o.tag == path + METADATA_SUFFIX
    ensures MetadataExact(codec, objects, path, codec.unmarshal(o.value))
  {
    var h :| Matching(objects, path + METADATA_SUFFIX, h) && objects[h] == o;
    forall t | Shows(objects, t) ensures codec.unmarshal(o.value) == MetadataAt(codec, t, path) {
      assert At(t, o.tag) == Some(o.value);
    }
  }

  lemma MetadataMissing(codec: Codec, objects: Objects, path: string, found: seq<Object>)
    requires Complete(objects, path + METADATA_SUFFIX, found)
    requires forall o :: o in found ==> o.tag != path + METADATA_SUFFIX
    ensures MetadataExact(codec, objects, path, None)
  {
    forall t | Shows(objects, t) ensures None == MetadataAt(codec, t, path) {
      assert path + METADATA_SUFFIX in t ==> Labelled(objects, path + METADATA_SUFFIX);
    }
  }

  /** Whatever fails, objects outside `path` survive and nothing is made outside it. */
  ghost predicate Confined(before: Objects, after: Objects, path: string)
  {
    && (forall h :: h in before && !HasPrefix(before[h].tag, path) ==> h in after && after[h] == before[h])
    && (forall h :: h in after ==> HasPrefix(after[h].tag, path) || (h in before && before[h] == after[h]))
  }

  /** Every object is kept, and what is new is labelled under `path`. */
  ghost predicate Grown(before: Objects, after: Objects, path: string)
  {
    && (forall h :: h in before ==> h in after && after[h] == before[h])
    && (forall h :: h in after && h !in before ==> HasPrefix(after[h].tag, path))
  }

  // ------------------------------------------------------------- the session

  class PKCS11Client {
    var connected: bool
    var objects: Objects
    var nextHandle: nat
    var searching: bool
    ghost var wedged: bool
    ghost var faults: nat

    ghost predicate Handles()
      reads this
    {
      forall h :: h in objects ==> h < nextHandle
    }

    /** Between operations a search is active exactly when ending one has failed. */
    ghost predicate Valid()
      reads this
    {
      Handles() && searching == wedged
    }

    constructor ()
      ensures Valid() && !connected && objects == map[] && !wedged && faults == 0
    {
      connected, objects, nextHandle, searching := false, map[], 0, false;
      wedged, faults := false, 0;
    }

    // Library calls, as section 5.7 of PKCS #11 v2.40 gives them.

    method FindObjectsInit() returns (ok: bool)
      modifies `searching, `faults
      ensures ok == (faults == old(faults)) && faults >= old(faults)
      ensures old(searching) ==> !ok
      ensures searching == (old(searching) || ok)
    {
      ok := *;
      if searching { ok := false; }
      if ok { searching := true; } else { faults := faults + 1; }
    }

    /** At most `max` handles of the objects with the given label, or of all objects. */
    method FindObjects(tag: Option<string>, max: nat) returns (ok: bool, handles: seq<nat>)
      requires searching
      modifies `faults
      ensures ok == (faults == old(faults)) && faults >= old(faults)
      ensures DistinctHandles(handles)
      ensures forall h :: h in handles ==> Selected(objects, tag, h)
      ensures ok && |objects| <= max ==> forall h :: Selected(objects, tag, h) ==> h in handles
      ensures ok && max > 0 && handles == [] ==> forall h :: !Selected(objects, tag, h)
    {
      handles := [];
      ok := *;
      if !ok { faults := faults + 1; return; }
      var left := set h | h in objects && Selected(objects, tag, h);
      ghost var all := left;
      assert forall h :: Selected(objects, tag, h) ==> h in all;
      SubsetBound(left, objects.Keys);
      while left != {} && |handles| < max
        invariant left <= all && |handles| + |left| == |all|
        invariant forall h :: h in handles <==> h in all - left
        invariant DistinctHandles(handles)
        decreases |left|
      {
        var h :| h in left;
        assert h !in handles;
        left := left - {h};
        handles := handles + [h];
      }
      assert |objects.Keys| == |objects|;
      assert |left| == 0 <==> left == {};
      assert handles == [] && max > 0 ==> all == {};
    }

    method FindObjectsFinal() returns (ok: bool)
      requires searching
      modifies `searching, `faults, `wedged
      ensures ok == (faults == old(faults)) && faults >= old(faults)
      ensures searching == !ok && wedged == (old(wedged) || !ok)
    {
      ok := *;
      if ok { searching := false; } else { faults, wedged := faults + 1, true; }
    }

    method GetAttributeValue(h: nat) returns (r: Option<Object>)
      requires h in objects
      modifies `faults
      ensures faults >= old(faults) && (faults == old(faults) <==> r == Some(objects[h]))
      ensures r == None || r == Some(objects[h])
    {
      var ok: bool := *;
      if ok { r := Some(objects[h]); } else { r, faults := None, faults + 1; }
    }

    /** Never called in search mode. */
    method CreateObject(tag: string, value: string) returns (ok: bool)
      requires Handles() && !searching
      modifies `objects, `nextHandle, `faults
      ensures Handles()
      ensures ok == (faults == old(faults)) && faults >= old(faults)
      ensures !ok ==> objects == old(objects)
      ensures old(nextHandle) !in old(objects)
      ensures ok ==> objects == old(objects)[old(nextHandle) := Object(tag, value)]
    {
      ok := *;
      if ok {
        objects, nextHandle := objects[nextHandle := Object(tag, value)], nextHandle + 1;
      } else {
        faults := faults + 1;
      }
    }

    /** Never called in search mode. */
    method DestroyObject(h: nat) returns (ok: bool)
      requires Handles() && !searching
      modifies `objects, `faults
      ensures Handles()
      ensures ok == (faults == old(faults)) && faults >= old(faults)
      ensures objects == if ok then old(objects) - {h} else old(objects)
    {
      ok := *;
      if ok { objects := objects - {h}; } else { faults := faults + 1; }
    }

    // ------------------------------------------------------- search helpers

    method FindLabelled(path: string) returns (r: Option<seq<Object>>)
      requires Valid()
      modifies `searching, `faults, `wedged
      ensures Valid() && faults >= old(faults)
      ensures r.None? ==> faults > old(faults)
      ensures old(searching) ==> r.None? && searching
      ensures r.Some? ==> !searching && Genuine(objects, path, r.value) && forall o :: o in r.value ==> o.tag != ""
      ensures faults == old(faults) && |objects| <= SEARCH_LIMIT ==> r.Some? && Complete(objects, path, r.value)
    {
      r := None;
      var begun := FindObjectsInit();
      if !begun { return; }
      var listed, handles := FindObjects(None, SEARCH_LIMIT);
      if !listed {
        var _ := FindObjectsFinal();
        return;
      }
      var ended := FindObjectsFinal();
      if !ended { return; }
      var found := [];
      for i := 0 to |handles|
        invariant faults >= old(faults) && Valid() && !searching
        invariant Genuine(objects, path, found)
        invariant faults == old(faults) ==>
                  forall j :: 0 <= j < i && Matching(objects, path, handles[j]) ==> objects[handles[j]] in found
      {
        assert handles[i] in handles;
        var attrs := GetAttributeValue(handles[i]);
        if attrs.Some? && Matches(attrs.value.tag, path) {
          assert Matching(objects, path, handles[i]);
          found := found + [attrs.value];
        }
      }
      r := Some(found);
      if faults == old(faults) && |objects| <= SEARCH_LIMIT {
        forall h | Matching(objects, path, h) ensures objects[h] in found {
          assert Selected(objects, None, h);
        }
      }
    }

    method DeleteLabelled(path: string) returns (ok: bool)
      requires Valid()
      modifies `objects, `searching, `faults, `wedged
      ensures Valid() && faults >= old(faults)
      ensures faults == old(faults) ==> ok
      ensures old(searching) ==> !ok && searching && objects == old(objects)
      ensures ok ==> !searching
      ensures Confined(old(objects), objects, path)
      ensures forall h :: h in objects ==> h in old(objects) && objects[h] == old(objects)[h]
      ensures faults == old(faults) && |old(objects)| <= SEARCH_LIMIT ==> objects == Purged(old(objects), path)
    {
      ok := FindObjectsInit();
      if !ok { return; }
      var handles;
      ok, handles := FindObjects(None, SEARCH_LIMIT);
      if !ok {
        var _ := FindObjectsFinal();
        return;
      }
      var doomed := [];
      for i := 0 to |handles|
        invariant faults >= old(faults) && Handles() && searching && wedged == old(wedged)
        invariant objects == old(objects)
        invariant forall h :: h in doomed ==> Matching(objects, path, h)
        invariant faults == old(faults) ==>
                  forall j :: 0 <= j < i && Matching(objects, path, handles[j]) ==> handles[j] in doomed
      {
        assert handles[i] in handles;
        var attrs := GetAttributeValue(handles[i]);
        if attrs.Some? && Matches(attrs.value.tag, path) {
          doomed := doomed + [handles[i]];
        }
      }
      ok := FindObjectsFinal();
      if !ok { return; }
      assert faults == old(faults) && |objects| <= SEARCH_LIMIT ==>
          forall h :: Matching(objects, path, h) ==> h in doomed by {
        forall h | Matching(objects, path, h)
          ensures faults == old(faults) && |objects| <= SEARCH_LIMIT ==> h in doomed
        {
          assert Selected(objects, None, h);
        }
      }
      ok := DestroyAll(doomed);
      if faults == old(faults) && |old(objects)| <= SEARCH_LIMIT {
        assert objects == Purged(old(objects), path);
      }
    }

    method DestroyAll(doomed: seq<nat>) returns (ok: bool)
      requires Valid() && !searching
      modifies `objects, `faults
      ensures Valid() && faults >= old(faults)
      ensures ok == (faults == old(faults))
      ensures forall h :: h in objects ==> h in old(objects) && objects[h] == old(objects)[h]
      ensures forall h :: h in old(objects) && h !in doomed ==> h in objects
      ensures ok ==> forall h :: h in doomed ==> h !in objects
    {
      ok := true;
      for i := 0 to |doomed|
        invariant Valid() && faults >= old(faults) && ok == (faults == old(faults))
        invariant forall h :: h in objects ==> h in old(objects) && objects[h] == old(objects)[h]
        invariant forall h :: h in old(objects) && h !in doomed ==> h in objects
        invariant ok ==> forall j :: 0 <= j < i ==> doomed[j] !in objects
      {
        var done := DestroyObject(doomed[i]);
        ok := ok && done;
      }
    }

    // ---------------------------------------------------- secret operations

    method WriteSecret(codec: Codec, path: string, data: SecretData, metadata: Option<Metadata>) returns (ok: bool)
      requires Valid()
      modifies `objects, `nextHandle, `searching, `faults, `wedged
      ensures Valid() && faults >= old(faults)
      ensures !connected || old(searching) ==> !ok && objects == old(objects) && searching == old(searching)
      ensures connected && faults == old(faults) ==> ok
      ensures ok ==> !searching
      ensures Confined(old(objects), objects, path)
      ensures connected && faults == old(faults) && |old(objects)| <= SEARCH_LIMIT
              && path != "" && "_metadata" !in data ==>
              Rewritten(codec, old(objects), objects, path, Entry(data, metadata))
    {
      ok := false;
      if !connected { return; }
      ok := DeleteLabelled(path);
      if !ok { return; }
      PurgedIsRewritten(codec, old(objects), path);
      ok := WriteData(codec, path, data, old(objects));
      if !ok { return; }
      if metadata.Some? {
        if faults == old(faults) && |old(objects)| <= SEARCH_LIMIT && path != "" && "_metadata" !in data {
          RewrittenMetadata(codec, old(objects), objects, path, data, nextHandle, metadata.value);
        }
        ok := CreateObject(path + METADATA_SUFFIX, codec.marshal(metadata.value));
      }
    }

    method WriteData(codec: Codec, path: string, data: SecretData, ghost before: Objects) returns (ok: bool)
      requires Valid() && !searching
      modifies `objects, `nextHandle, `faults
      ensures Valid() && faults >= old(faults)
      ensures ok == (faults == old(faults))
      ensures Grown(old(objects), objects, path)
      ensures ok ==> Filled(codec, before, old(objects), objects, path, data)
    {
      ok := true;
      var left := data.Keys;
      ghost var done: SecretData := map[];
      while left != {}
        invariant Valid() && !searching && faults == old(faults) && ok
        invariant left <= data.Keys && done.Keys == data.Keys - left && forall k :: k in done ==> done[k] == data[k]
        invariant Grown(old(objects), objects, path)
        invariant Filled(codec, before, old(objects), objects, path, done)
        decreases |left|
      {
        var key :| key in left;
        FilledKey(codec, before, old(objects), objects, path, done, nextHandle, key, data[key]);
        assert HasPrefix(LabelOf(path, key), path);
        ok := CreateObject(LabelOf(path, key), data[key]);
        if !ok { return; }
        left, done := left - {key}, done[key := data[key]];
      }
      assert done == data;
    }

    method ReadSecret(path: string) returns (r: Option<SecretData>)
      requires Valid()
      modifies `searching, `faults, `wedged
      ensures Valid() && faults >= old(faults)
      ensures !connected || old(searching) ==> r == None && searching == old(searching)
      ensures r.Some? ==> Truthful(objects, path, r.value)
      ensures connected && faults == old(faults) && |objects| <= SEARCH_LIMIT ==> Exact(objects, path, r)
    {
      r := None;
      if !connected { return; }
      var found := FindLabelled(path);
      if found.None? { return; }
      var data, matching := CollectData(found.value, path);
      ReadIsTruthful(objects, path, found.value, data);
      if faults == old(faults) && |objects| <= SEARCH_LIMIT { ReadIsExact(objects, path, found.value, data); }
      if matching == 0 { return; }
      r := Some(data);
    }

    method ReadMetadata(codec: Codec, path: string) returns (r: Option<Metadata>)
      requires Valid()
      modifies `searching, `faults, `wedged
      ensures Valid() && faults >= old(faults)
      ensures !connected || old(searching) ==> r == None && searching == old(searching)
      ensures r.Some? ==> MetadataExact(codec, objects, path, r)
      ensures connected && faults == old(faults) && |objects| <= SEARCH_LIMIT ==> MetadataExact(codec, objects, path, r)
    {
      r := None;
      if !connected { return; }
      var found := FindLabelled(path + METADATA_SUFFIX);
      if found.None? { return; }
      var o := FirstLabelled(found.value, path + METADATA_SUFFIX);
      if o.Some? {
        MetadataFound(codec, objects, path, found.value, o.value);
        r := codec.unmarshal(o.value.value);
      } else if faults == old(faults) && |objects| <= SEARCH_LIMIT {
        MetadataMissing(codec, objects, path, found.value);
      }
    }

    method ListSecrets(prefix: string) returns (r: Option<set<string>>)
      requires Valid()
      modifies `searching, `faults, `wedged
      ensures Valid() && faults >= old(faults)
      ensures !connected || old(searching) ==> r == None && searching == old(searching)
      ensures r.Some? ==> ListsOnly(objects, prefix, r.value)
      ensures connected && faults == old(faults) && |objects| <= SEARCH_LIMIT ==>
              r.Some? && ListsAll(objects, prefix, r.value)
    {
      r := None;
      if !connected { return; }
      var found := FindLabelled("");
      if found.None? { return; }
      var paths := PathsOf(found.value, prefix);
      forall t | Shows(objects, t) ensures paths <= Listed(t, prefix) {
        ListGenuine(objects, t, found.value, prefix);
      }
      if faults == old(faults) && |objects| <= SEARCH_LIMIT {
        forall t | Shows(objects, t) ensures paths == Listed(t, prefix) {
          ListComplete(objects, t, found.value, prefix);
        }
      }
      r := Some(paths);
    }

    method DeleteSecret(path: string) returns (ok: bool)
      requires Valid()
      modifies `objects, `searching, `faults, `wedged
      ensures Valid() && faults >= old(faults)
      ensures !connected || old(searching) ==> !ok && objects == old(objects) && searching == old(searching)
      ensures connected && faults == old(faults) ==> ok
      ensures Confined(old(objects), objects, path)
      ensures connected && faults == old(faults) && |old(objects)| <= SEARCH_LIMIT ==>
              forall t :: Shows(old(objects), t) ==> Shows(objects, Without(t, path))
    {
      ok := false;
      if !connected { return; }
      ok := DeleteLabelled(path);
      forall t | Shows(old(objects), t) ensures Shows(Purged(old(objects), path), Without(t, path)) {
        PurgedShows(old(objects), t, path);
      }
    }

    method DeleteSecretKey(path: string, key: string) returns (ok: bool)
      requires Valid()
      modifies `objects, `searching, `faults, `wedged
      ensures Valid() && faults >= old(faults)
      ensures !connected || old(searching) ==> !ok && objects == old(objects) && searching == old(searching)
      ensures !ok ==> objects == old(objects)
      ensures Confined(old(objects), objects, path)
      ensures connected && faults == old(faults) ==>
              forall t :: Shows(old(objects), t) ==> (ok <==> KeyLabel(path, key) in t)
      ensures ok ==> forall t :: Shows(old(objects), t) ==> Shows(objects, t - {KeyLabel(path, key)})
    {
      ok := false;
      if !connected { return; }
      var tag := KeyLabel(path, key);
      var begun := FindObjectsInit();
      if !begun { return; }
      var listed, handles := FindObjects(Some(tag), 1);
      if !listed {
        var _ := FindObjectsFinal();
        return;
      }
      var ended := FindObjectsFinal();
      if !ended { return; }
      if |handles| == 0 {
        forall t | Shows(objects, t) ensures tag !in t { Unlabelled(objects, t, tag); }
        return;
      }
      assert handles[0] in handles;
      forall t | Shows(objects, t) ensures Shows(objects - {handles[0]}, t - {tag}) && tag in t {
        Destroyed(objects, t, handles[0]);
      }
      ok := DestroyObject(handles[0]);
    }
  }

  /** The label of the object that holds one key. */
  function KeyLabel(path: string, key: string): string
  {
    if key == "" then path else LabelOf(path, key)
  }

  lemma Unlabelled(objects: Objects, t: Token, tag: string)
    requires Shows(objects, t) && forall h :: !Selected(objects, Some(tag), h)
    ensures tag !in t
  {
    if tag in t {
      assert Labelled(objects, tag);
      var h :| h in objects && objects[h].tag == tag;
      assert Selected(objects, Some(tag), h);
    }
  }

  lemma SubsetBound(a: set<nat>, b: set<nat>)
    requires a <= b
    ensures |a| <= |b|
  {
    if a != {} {
      var x :| x in a;
      SubsetBound(a - {x}, b - {x});
    }
  }
}
