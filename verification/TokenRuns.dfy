/** Runs of the token client itself: as long as no library call fails and the
token stays within what one search returns, its answers are those of the map.
*/
module TokenRuns {
  import opened Checksum
  import opened Replica
  import opened LabelStore
  import opened LabelRuns
  import opened TokenClient

  /** One object per label. */
  lemma {:induction false} ShowsSize(objects: Objects, t: Token)
    requires Shows(objects, t)
    ensures |objects| == |t|
    decreases |objects|
  {
    if objects == map[] {
      assert forall l :: l in t ==> Labelled(objects, l);
      assert t == map[];
    } else {
      var h :| h in objects;
      Destroyed(objects, t, h);
      ShowsSize(objects - {h}, t - {objects[h].tag});
      SizeWithout(objects, h);
      SizeWithout(t, objects[h].tag);
    }
  }

  lemma SizeWithout<K, V>(m: map<K, V>, k: K)
    requires k in m
    ensures |m - {k}| == |m| - 1
  {
    assert (m - {k}).Keys == m.Keys - {k};
    assert |m| == |m.Keys| && |m - {k}| == |(m - {k}).Keys|;
  }

  /** Before each operation a single search reaches the whole token. */
  ghost predicate WithinSearch(codec: Codec, ops: seq<Op>)
  {
    forall i :: 0 <= i <= |ops| ==> |TokenRun(codec, ops[..i])| <= 100
  }

  lemma NoMetadataKey(op: Op)
    requires op.Write? && GoodOp(op)
    ensures "_metadata" !in op.data && op.path != ""
  {}

  method PerformOne(client: PKCS11Client, codec: Codec, op: Op)
    requires client.Valid() && client.connected
    modifies client
    ensures client.Valid() && client.connected && client.faults >= old(client.faults)
    ensures client.faults == old(client.faults) && GoodOp(op) ==>
            forall t :: Shows(old(client.objects), t) && |t| <= SEARCH_LIMIT ==>
              Shows(client.objects, TokenStep(codec, t, op))
  {
    ghost var before := client.objects;
    forall t | Shows(before, t) ensures |before| == |t| { ShowsSize(before, t); }
    match op
    case Write(path, data, metadata) =>
      if GoodOp(op) { NoMetadataKey(op); }
      var _ := client.WriteSecret(codec, path, data, metadata);
    case Delete(path) =>
      var _ := client.DeleteSecret(path);
    case DeleteKey(path, key) =>
      var ok := client.DeleteSecretKey(path, key);
      forall t | Shows(before, t) && LabelOf(path, key) !in t ensures t - {LabelOf(path, key)} == t {}
  }

  lemma PrefixRun(codec: Codec, ops: seq<Op>, i: nat)
    requires i < |ops|
    ensures TokenRun(codec, ops[..i + 1]) == TokenStep(codec, TokenRun(codec, ops[..i]), ops[i])
  {
    assert ops[..i + 1][..i] == ops[..i];
  }

  /** The operations one after the other, on a token that was empty. */
  method Perform(client: PKCS11Client, codec: Codec, ops: seq<Op>)
    requires client.Valid() && client.connected
    modifies client
    ensures client.Valid() && client.connected && client.faults >= old(client.faults)
    ensures client.faults == old(client.faults) && old(client.objects) == map[]
            && Disciplined(ops) && WithinSearch(codec, ops) ==>
            Shows(client.objects, TokenRun(codec, ops))
  {
    for i := 0 to |ops|
      invariant client.Valid() && client.connected && client.faults >= old(client.faults)
      invariant client.faults == old(client.faults) && old(client.objects) == map[]
                && Disciplined(ops) && WithinSearch(codec, ops) ==>
                Shows(client.objects, TokenRun(codec, ops[..i]))
    {
      PrefixRun(codec, ops, i);
      PerformOne(client, codec, ops[i]);
    }
    assert ops[..|ops|] == ops;
  }

  /** After any run that is not disturbed, the client reads, reads metadata and lists as the map would. */
  method PerformAndAsk(client: PKCS11Client, codec: Codec, ops: seq<Op>, path: string, prefix: string)
    returns (data: Option<SecretData>, metadata: Option<Metadata>, paths: Option<set<string>>)
    requires client.Valid() && client.connected
    modifies client
    ensures client.Valid() && client.faults >= old(client.faults)
    ensures client.faults == old(client.faults) && old(client.objects) == map[] && Faithful(codec)
            && Disciplined(ops) && WithinSearch(codec, ops) && ValidSecretPath(path) && ApartFrom(ops, path) ==>
            && data == StoredData(StoreRun(ops), path)
            && metadata == StoredMetadata(StoreRun(ops), path)
            && (ListableOps(ops) ==> paths == Some(StoredPaths(StoreRun(ops), prefix)))
  {
    Perform(client, codec, ops);
    data := client.ReadSecret(path);
    metadata := client.ReadMetadata(codec, path);
    paths := client.ListSecrets(prefix);
    if client.faults == old(client.faults) && old(client.objects) == map[] && Faithful(codec)
       && Disciplined(ops) && WithinSearch(codec, ops) && ValidSecretPath(path) && ApartFrom(ops, path) {
      ShowsSize(client.objects, TokenRun(codec, ops));
      assert ops[..|ops|] == ops;
      EveryRunAnswers(codec, ops, path, data);
      if ListableOps(ops) { EveryRunLists(codec, ops, prefix); }
    }
  }
}
