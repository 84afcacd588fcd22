/** Whole runs of writes and deletes on a token, against the map they stand for
and against the two maps the mock client keeps.
*/
module LabelRuns {
  import opened Checksum
  import opened Replica
  import opened LabelStore

  datatype Op =
    | Write(path: string, data: SecretData, metadata: Option<Metadata>)
    | Delete(path: string)
    | DeleteKey(path: string, key: string)

  function TokenStep(codec: Codec, t: Token, op: Op): Token
  {
    match op
    case Write(path, data, metadata) => Written(codec, t, path, Entry(data, metadata))
    case Delete(path) => Without(t, path)
    case DeleteKey(path, key) => t - {LabelOf(path, key)}
  }

  function StoreStep(s: Store, op: Op): Store
  {
    match op
    case Write(path, data, metadata) => s[path := Entry(data, metadata)]
    case Delete(path) => s - {path}
    case DeleteKey(path, key) => if path in s then s[path := WithoutKey(s[path], key)] else s
  }

  /** The maps of the mock client. */
  datatype Mock = Mock(secrets: map<string, SecretData>, metadata: map<string, Metadata>)

  function MockStep(m: Mock, op: Op): Mock
  {
    match op
    case Write(path, data, metadata) =>
      Mock(m.secrets[path := data], if metadata.Some? then m.metadata[path := metadata.value] else m.metadata)
    case Delete(path) =>
      if path in m.secrets then Mock(m.secrets - {path}, m.metadata - {path}) else m
    case DeleteKey(path, key) =>
      if path in m.secrets then m.(secrets := m.secrets[path := m.secrets[path] - {key}]) else m
  }

  function TokenRun(codec: Codec, ops: seq<Op>): Token
  {
    if ops == [] then map[] else TokenStep(codec, TokenRun(codec, ops[..|ops| - 1]), ops[|ops| - 1])
  }

  function StoreRun(ops: seq<Op>): Store
  {
    if ops == [] then map[] else StoreStep(StoreRun(ops[..|ops| - 1]), ops[|ops| - 1])
  }

  function MockRun(ops: seq<Op>): Mock
  {
    if ops == [] then Mock(map[], map[]) else MockStep(MockRun(ops[..|ops| - 1]), ops[|ops| - 1])
  }

  // ------------------------------------------------------- what callers obey

  predicate GoodOp(op: Op)
  {
    && ValidSecretPath(op.path)
    && (op.Write? ==> GoodEntry(Entry(op.data, op.metadata)))
    && (op.DeleteKey? ==> ValidKey(op.key))
  }

  ghost predicate ApartFrom(ops: seq<Op>, path: string)
  {
    forall i :: 0 <= i < |ops| ==> ops[i].path == path || Incomparable(path, ops[i].path)
  }

  /** Validated operations over paths none of which is a proper prefix of another. */
  ghost predicate Disciplined(ops: seq<Op>)
  {
    forall i :: 0 <= i < |ops| ==> GoodOp(ops[i]) && ApartFrom(ops, ops[i].path)
  }

  lemma DisciplinedInit(ops: seq<Op>)
    requires ops != [] && Disciplined(ops)
    ensures Disciplined(ops[..|ops| - 1]) && ApartFrom(ops[..|ops| - 1], ops[|ops| - 1].path)
  {
    var init := ops[..|ops| - 1];
    forall i | 0 <= i < |init| ensures GoodOp(init[i]) && ApartFrom(init, init[i].path) {
      assert ApartFrom(ops, ops[i].path);
    }
    assert ApartFrom(ops, ops[|ops| - 1].path);
  }

  lemma {:induction false} StoredWasNamed(ops: seq<Op>, p: string)
    requires p in StoreRun(ops)
    ensures exists i :: 0 <= i < |ops| && ops[i].path == p
  {
    var last, init := ops[|ops| - 1], ops[..|ops| - 1];
    if p in StoreRun(init) {
      StoredWasNamed(init, p);
      var i :| 0 <= i < |init| && init[i].path == p;
      assert ops[i].path == p;
    } else {
      assert last.path == p;
    }
  }

  lemma ApartFits(ops: seq<Op>, path: string)
    requires ApartFrom(ops, path) && ValidSecretPath(path)
    ensures Fits(StoreRun(ops), path)
  {
    forall q | q in StoreRun(ops) && q != path ensures Incomparable(path, q) { StoredWasNamed(ops, q); }
  }

  // ------------------------------------------------------------- refinement

  lemma MissingKey(codec: Codec, t: Token, s: Store, path: string, key: string)
    requires Represents(codec, t, s) && Fits(s, path) && ValidKey(key) && path !in s
    ensures t - {LabelOf(path, key)} == t
  {
    HasKey(codec, t, s, path, key);
  }

  lemma DeleteKeyStep(codec: Codec, t: Token, s: Store, path: string, key: string)
    requires Represents(codec, t, s) && Fits(s, path) && ValidKey(key)
    ensures Represents(codec, t - {LabelOf(path, key)}, StoreStep(s, DeleteKey(path, key)))
  {
    if path in s {
      DeleteKeyRefines(codec, t, s, path, key);
    } else {
      MissingKey(codec, t, s, path, key);
    }
  }

  lemma StepRefines(codec: Codec, t: Token, s: Store, op: Op)
    requires Represents(codec, t, s) && GoodOp(op) && Fits(s, op.path)
    ensures Represents(codec, TokenStep(codec, t, op), StoreStep(s, op))
  {
    match op
    case Write(path, data, metadata) => WriteRefines(codec, t, s, path, Entry(data, metadata));
    case Delete(path) => DeleteRefines(codec, t, s, path);
    case DeleteKey(path, key) => DeleteKeyStep(codec, t, s, path, key);
  }

  /** After every disciplined run the token holds exactly the objects of the map. */
  lemma {:induction false} EveryRunRefines(codec: Codec, ops: seq<Op>)
    requires Disciplined(ops)
    ensures Represents(codec, TokenRun(codec, ops), StoreRun(ops))
  {
    if ops != [] {
      var last, init := ops[|ops| - 1], ops[..|ops| - 1];
      DisciplinedInit(ops);
      EveryRunRefines(codec, init);
      assert GoodOp(last);
      ApartFits(init, last.path);
      StepRefines(codec, TokenRun(codec, init), StoreRun(init), last);
    }
  }

  /** Every read and metadata read then answers as the map would. */
  lemma EveryRunAnswers(codec: Codec, ops: seq<Op>, path: string, r: Option<SecretData>)
    requires Faithful(codec) && Disciplined(ops) && ValidSecretPath(path) && ApartFrom(ops, path)
    requires Answers(TokenRun(codec, ops), path, r)
    ensures r == StoredData(StoreRun(ops), path)
    ensures MetadataAt(codec, TokenRun(codec, ops), path) == StoredMetadata(StoreRun(ops), path)
  {
    EveryRunRefines(codec, ops);
    ApartFits(ops, path);
    ReadRefines(codec, TokenRun(codec, ops), StoreRun(ops), path, r);
    MetadataRefines(codec, TokenRun(codec, ops), StoreRun(ops), path);
  }

  /** Keys without a slash, and the key "data" only on paths without one. */
  predicate ListableOps(ops: seq<Op>)
  {
    forall i :: 0 <= i < |ops| && ops[i].Write? ==> forall k :: k in ops[i].data ==> ListableKey(ops[i].path, k)
  }

  lemma {:induction false} ListableRun(ops: seq<Op>)
    requires ListableOps(ops)
    ensures Listable(StoreRun(ops))
  {
    if ops != [] {
      assert forall i :: 0 <= i < |ops| - 1 ==> ops[..|ops| - 1][i] == ops[i];
      ListableRun(ops[..|ops| - 1]);
    }
  }

  /** And every listing, when the keys written are listable. */
  lemma EveryRunLists(codec: Codec, ops: seq<Op>, prefix: string)
    requires Disciplined(ops) && ListableOps(ops)
    ensures Listed(TokenRun(codec, ops), prefix) == StoredPaths(StoreRun(ops), prefix)
  {
    EveryRunRefines(codec, ops);
    ListableRun(ops);
    ListRefines(codec, TokenRun(codec, ops), StoreRun(ops), prefix);
  }

  // ---------------------------------------------------------- the mock client

  function MockRead(m: Mock, path: string): Option<SecretData>
  {
    if path in m.secrets then Some(m.secrets[path]) else None
  }

  function MockMetadata(m: Mock, path: string): Option<Metadata>
  {
    if path in m.metadata then Some(m.metadata[path]) else None
  }

  function MockList(m: Mock, prefix: string): set<string>
  {
    set p | p in m.secrets && HasPrefix(p, prefix)
  }

  /** The mock has the data of the map. */
  ghost predicate SameData(m: Mock, s: Store)
  {
    forall p :: MockRead(m, p) == DataOf(s, p)
  }

  function DataOf(s: Store, p: string): Option<SecretData>
  {
    if p in s then Some(s[p].data) else None
  }

  lemma MockStepSame(m: Mock, s: Store, op: Op)
    requires SameData(m, s)
    ensures SameData(MockStep(m, op), StoreStep(s, op))
  {
    assert MockRead(m, op.path) == DataOf(s, op.path);
    forall p ensures MockRead(MockStep(m, op), p) == DataOf(StoreStep(s, op), p) {
      assert MockRead(m, p) == DataOf(s, p);
    }
  }

  lemma {:induction false} MockRunSame(ops: seq<Op>)
    ensures SameData(MockRun(ops), StoreRun(ops))
  {
    if ops != [] {
      MockRunSame(ops[..|ops| - 1]);
      MockStepSame(MockRun(ops[..|ops| - 1]), StoreRun(ops[..|ops| - 1]), ops[|ops| - 1]);
    }
  }

  /** The run has left a secret without any key at `path`. */
  predicate Emptied(ops: seq<Op>, path: string)
  {
    path in StoreRun(ops) && StoreRun(ops)[path].data == map[]
  }

  /** Since the path was last deleted, some write to it has brought metadata. */
  predicate Brought(ops: seq<Op>, path: string)
  {
    if ops == [] then false
    else
      var init, last := ops[..|ops| - 1], ops[|ops| - 1];
      if last.path != path || last.DeleteKey? then Brought(init, path)
      else last.Write? && (last.metadata.Some? || Brought(init, path))
  }

  /** Since the path was last deleted, it was written, and the last write brought metadata. */
  predicate LastBrought(ops: seq<Op>, path: string)
  {
    if ops == [] then false
    else
      var init, last := ops[..|ops| - 1], ops[|ops| - 1];
      if last.path != path || last.DeleteKey? then LastBrought(init, path)
      else last.Write? && last.metadata.Some?
  }

  /** What the two clients remember of the metadata at a path. */
  lemma {:induction false} MetadataRemembered(ops: seq<Op>, path: string)
    ensures MockMetadata(MockRun(ops), path).Some? <==> Brought(ops, path)
    ensures StoredMetadata(StoreRun(ops), path).Some? <==> LastBrought(ops, path)
    ensures LastBrought(ops, path) ==>
            Brought(ops, path) && MockMetadata(MockRun(ops), path) == StoredMetadata(StoreRun(ops), path)
    ensures Brought(ops, path) ==> path in StoreRun(ops)
  {
    if ops != [] {
      var init := ops[..|ops| - 1];
      MetadataRemembered(init, path);
      MockRunSame(init);
      assert MockRead(MockRun(init), path) == DataOf(StoreRun(init), path);
    }
  }

  /** The token client and the mock client return the same data after the same run, except where it
  has left a secret without any key, which the token forgets and the mock keeps. They return the same metadata, except
  where the last write brought none and an earlier one did, which the mock still returns. */
  lemma MockAgreesIff(codec: Codec, ops: seq<Op>, path: string, r: Option<SecretData>)
    requires Faithful(codec) && Disciplined(ops)
    requires ValidSecretPath(path) && ApartFrom(ops, path) && Answers(TokenRun(codec, ops), path, r)
    ensures MockRead(MockRun(ops), path) == r <==> !Emptied(ops, path)
    ensures MockMetadata(MockRun(ops), path) == MetadataAt(codec, TokenRun(codec, ops), path) <==>
            (Brought(ops, path) ==> LastBrought(ops, path))
  {
    EveryRunAnswers(codec, ops, path, r);
    MockRunSame(ops);
    MetadataRemembered(ops, path);
    assert MockRead(MockRun(ops), path) == DataOf(StoreRun(ops), path);
  }

  /** And they list the same secrets, those without any key aside. */
  lemma MockListsSame(codec: Codec, ops: seq<Op>, prefix: string)
    requires Disciplined(ops) && ListableOps(ops)
    ensures Listed(TokenRun(codec, ops), prefix)
         == set p | p in MockList(MockRun(ops), prefix) && !Emptied(ops, p)
  {
    EveryRunLists(codec, ops, prefix);
    MockRunSame(ops);
    forall p ensures p in StoredPaths(StoreRun(ops), prefix)
                <==> p in MockList(MockRun(ops), prefix) && !Emptied(ops, p)
    {
      assert MockRead(MockRun(ops), p) == DataOf(StoreRun(ops), p);
    }
  }

  // ---------------------------------------------------------- where they differ

  /** Write one key and delete it again. */
  function WriteThenDelete(path: string, key: string, value: string, m: Metadata): seq<Op>
  {
    [Write(path, map[key := value], Some(m)), DeleteKey(path, key)]
  }

  lemma ThenEmptied(path: string, key: string, value: string, m: Metadata)
    ensures StoreRun(WriteThenDelete(path, key, value, m)) == map[path := Entry(map[], Some(m))]
  {
    var write, delete := Write(path, map[key := value], Some(m)), DeleteKey(path, key);
    assert [write, delete][..1] == [write] && [write][..0] == [];
    assert StoreRun([write]) == StoreStep(map[], write);
    assert map[key := value] - {key} == map[];
  }

  lemma ThenDisciplined(path: string, key: string, value: string, m: Metadata)
    requires ValidSecretPath(path) && ValidKey(key)
    ensures Disciplined(WriteThenDelete(path, key, value, m)) && ApartFrom(WriteThenDelete(path, key, value, m), path)
  {}

  /** After a write with metadata and one without, the mock remembers what the token has not. */
  lemma MetadataKeptByMock(path: string, first: SecretData, second: SecretData, m: Metadata)
    ensures var ops := [Write(path, first, Some(m)), Write(path, second, None)];
      MockMetadata(MockRun(ops), path).Some? && StoredMetadata(StoreRun(ops), path) == None
  {
    var write, again := Write(path, first, Some(m)), Write(path, second, None);
    assert [write, again][..1] == [write];
    assert LastBrought([write], path) && Brought([write], path);
    MetadataRemembered([write, again], path);
  }

  /** Then the mock answers with empty data, the token with not found. */
  lemma LastKeyDeleted(codec: Codec, path: string, key: string, value: string, m: Metadata, r: Option<SecretData>)
    requires Faithful(codec) && ValidSecretPath(path) && ValidKey(key)
    requires Answers(TokenRun(codec, WriteThenDelete(path, key, value, m)), path, r)
    ensures r == None && MockRead(MockRun(WriteThenDelete(path, key, value, m)), path) == Some(map[])
  {
    var ops := WriteThenDelete(path, key, value, m);
    ThenDisciplined(path, key, value, m);
    ThenEmptied(path, key, value, m);
    EveryRunAnswers(codec, ops, path, r);
    MockRunSame(ops);
    assert MockRead(MockRun(ops), path) == DataOf(StoreRun(ops), path);
  }

  lemma DefaultKeyValid()
    ensures ValidKey(DEFAULT_KEY)
  {
    assert |DEFAULT_KEY| == 4;
  }

  /** The key "data" at a path with a slash is listed under a path that was never written. */
  lemma DataBelowSlash(codec: Codec, path: string, value: string)
    requires ValidSecretPath(path) && '/' in path
    ensures var ops := [Write(path, map[DEFAULT_KEY := value], None)];
      Disciplined(ops) && ParentPath(path) in Listed(TokenRun(codec, ops), "") && ParentPath(path) != path
  {
    var write := Write(path, map[DEFAULT_KEY := value], None);
    DefaultKeyValid();
    assert [write][..0] == [];
    EveryRunRefines(codec, [write]);
    assert StoreRun([write]) == StoreStep(map[], write);
    Mislisted(codec, TokenRun(codec, [write]), StoreRun([write]), path, DEFAULT_KEY);
    ListedPathIff(path, DEFAULT_KEY);
  }

  // --------------------------------------------------------------- isolation

  /** No write at `path`, on any token, changes what is stored under `q`. */
  ghost predicate Isolated(codec: Codec, path: string, q: string)
  {
    forall t: Token, e: Entry, l: string :: HasPrefix(l, q) ==> At(Written(codec, t, path, e), l) == At(t, l)
  }

  lemma OverwritesBelow(codec: Codec, path: string, q: string)
    requires HasPrefix(q, path)
    ensures !Isolated(codec, path, q)
  {
    var t, e := map[q := ""], Entry(map[], None);
    assert HasPrefix(q, q);
    assert At(Written(codec, t, path, e), q) != At(t, q);
  }

  lemma WritesBelow(codec: Codec, path: string, q: string)
    requires HasPrefix(path, q)
    ensures !Isolated(codec, path, q)
  {
    var t, e := map[], Entry(map[DEFAULT_KEY := ""], None);
    FlatDataAt(path, e.data, DEFAULT_KEY);
    assert At(Written(codec, t, path, e), path) != At(t, path);
  }

  /** Writes at one path leave another alone exactly when neither path is a prefix of the other. */
  lemma IsolatedIff(codec: Codec, path: string, q: string)
    ensures Isolated(codec, path, q) <==> Incomparable(path, q)
  {
    if HasPrefix(q, path) { OverwritesBelow(codec, path, q); }
    if HasPrefix(path, q) { WritesBelow(codec, path, q); }
    if Incomparable(path, q) {
      forall t: Token, e: Entry, l: string | HasPrefix(l, q)
        ensures At(Written(codec, t, path, e), l) == At(t, l)
      {
        WrittenAt(codec, t, path, e, l);
        Disjoint(path, q, l);
      }
    }
  }
}
