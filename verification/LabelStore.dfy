/** Secrets spread over labelled token objects, and the map they stand for.

The token knows only labels and values.  A secret at `path` is one object per
key, labelled `path/key` (or just `path` for the key "data"), and one labelled
`path/_metadata`; everything is found again by label prefix.
*/
module LabelStore {
  import opened Checksum
  import opened Replica

  const DEFAULT_KEY := "data"
  const METADATA_SUFFIX := "/_metadata"
  const MAX_SECRET_PATH_LENGTH := 256
  const MAX_METADATA_FIELD_LENGTH := 1024

  // ------------------------------------------------------------ validation

  predicate PathChar(c: char)
  {
    'a' <= c <= 'z' || 'A' <= c <= 'Z' || '0' <= c <= '9' || c == '/' || c == '_' || c == '-'
  }

  predicate PathChars(s: string)
  {
    s != "" && forall i :: 0 <= i < |s| ==> PathChar(s[i])
  }

  predicate HasPrefix(s: string, prefix: string)
  {
    prefix <= s
  }

  predicate HasSuffix(s: string, suffix: string)
  {
    |suffix| <= |s| && s[|s| - |suffix|..] == suffix
  }

  predicate ValidSecretPath(path: string)
  {
    && path != "" && |path| <= MAX_SECRET_PATH_LENGTH && PathChars(path)
    && (forall i :: 0 <= i < |path| - 1 ==>
      !(path[i] == '.' && path[i + 1] == '.') && !(path[i] == '/' && path[i + 1] == '/'))
    && path[0] != '/' && path[|path| - 1] != '/'
    && !HasSuffix(path, "_metadata")
  }

  predicate ValidKey(key: string)
  {
    key != "" && |key| <= MAX_METADATA_FIELD_LENGTH && !HasSuffix(key, "_metadata") && PathChars(key)
  }

  /** A valid path has no empty part: it does not begin or end with a slash and has no two in a row. */
  lemma NoEmptyPart(path: string, i: nat)
    requires ValidSecretPath(path) && i < |path| && path[i] == '/'
    ensures 0 < i < |path| - 1 && path[i - 1] != '/' && path[i + 1] != '/'
  {
    var before := i - 1;
    assert i > 0;
    assert path[before + 1] == '/';
  }

  /** No valid path contains a dot, so the check for ".." never decides. */
  lemma NoDots(path: string)
    requires ValidSecretPath(path)
    ensures '.' !in path
  {}

  /** Valid paths joined by a slash are a valid path, if that is not too long. */
  lemma JoinedIsValid(p: string, q: string)
    requires ValidSecretPath(p) && ValidSecretPath(q) && |p| + 1 + |q| <= 256
    ensures ValidSecretPath(p + "/" + q)
  {
    var path := p + "/" + q;
    JoinedChars(p, q);
    forall i | 0 <= i < |path| - 1
      ensures !(path[i] == '.' && path[i + 1] == '.') && !(path[i] == '/' && path[i + 1] == '/')
    {
      JoinedAt(p, q, i);
    }
    JoinedSuffix(p, q);
  }

  lemma JoinedChars(p: string, q: string)
    requires PathChars(p) && PathChars(q)
    ensures PathChars(p + "/" + q) && (p + "/" + q)[0] == p[0] && (p + "/" + q)[|p| + |q|] == q[|q| - 1]
  {}

  lemma JoinedAt(p: string, q: string, i: nat)
    requires ValidSecretPath(p) && ValidSecretPath(q) && i < |p| + |q|
    ensures var path := p + "/" + q;
      !(path[i] == '/' && path[i + 1] == '/') && !(path[i] == '.' && path[i + 1] == '.')
  {
    var path := p + "/" + q;
    NoDots(p);
    NoDots(q);
    if i > |p| {
      var k := i - |p| - 1;
      assert path[i] == q[k] && path[i + 1] == q[k + 1];
    }
  }

  lemma JoinedSuffix(p: string, q: string)
    requires ValidSecretPath(p) && ValidSecretPath(q)
    ensures !HasSuffix(p + "/" + q, "_metadata")
  {
    var path := p + "/" + q;
    if |q| >= 9 {
      assert path[|path| - 9..] == q[|q| - 9..];
    } else if |path| >= 9 {
      assert path[|path| - 9..][8 - |q|] == path[|p|] == '/';
      assert "_metadata"[8 - |q|] != '/';
    }
  }

  function Repeated(c: char, n: nat): (s: string)
    ensures |s| == n && forall i :: 0 <= i < n ==> s[i] == c
  {
    if n == 0 then "" else [c] + Repeated(c, n - 1)
  }

  /** The longest paths have 256 characters, the longest keys 1024. */
  lemma LongestNames(n: nat)
    requires n > 0
    ensures ValidSecretPath(Repeated('a', n)) <==> n <= 256
    ensures ValidKey(Repeated('a', n)) <==> n <= 1024
  {
    NoSuchSuffix(Repeated('a', n));
  }

  lemma NoSuchSuffix(s: string)
    requires forall i :: 0 <= i < |s| ==> s[i] != '_'
    ensures !HasSuffix(s, "_metadata")
  {
    if |s| >= 9 { assert s[|s| - 9..][0] == s[|s| - 9]; }
  }

  // ------------------------------------------------------------- data model

  /** A metadata record, as its labels. */
  type Metadata = map<string, string>

  /** JSON encoding of metadata records. */
  datatype Codec = Codec(marshal: Metadata -> string, unmarshal: string -> Option<Metadata>)

  ghost predicate Faithful(codec: Codec)
  {
    forall m :: codec.unmarshal(codec.marshal(m)) == Some(m)
  }

  datatype Entry = Entry(data: SecretData, metadata: Option<Metadata>)

  /** The map the token stands for. */
  type Store = map<string, Entry>

  /** The token's contents: label to value. */
  type Token = map<string, string>

  function LabelOf(path: string, key: string): string
  {
    if key == DEFAULT_KEY then path else path + "/" + key
  }

  lemma LabelInjective(path: string, k: string, k': string)
    ensures LabelOf(path, k) == LabelOf(path, k') ==> k == k'
  {
    if k != DEFAULT_KEY { assert LabelOf(path, k)[|path| + 1..] == k; }
    if k' != DEFAULT_KEY { assert LabelOf(path, k')[|path| + 1..] == k'; }
  }

  function FlatData(path: string, data: SecretData): Token
  {
    assert forall k, k' :: LabelOf(path, k) == LabelOf(path, k') ==> k == k' by {
      forall k, k' ensures LabelOf(path, k) == LabelOf(path, k') ==> k == k' { LabelInjective(path, k, k'); }
    }
    map k | k in data :: LabelOf(path, k) := data[k]
  }

  function FlatMetadata(codec: Codec, path: string, metadata: Option<Metadata>): Token
  {
    if metadata.Some? then map[path + METADATA_SUFFIX := codec.marshal(metadata.value)] else map[]
  }

  /** The objects of one secret. */
  function Flat(codec: Codec, path: string, e: Entry): Token
  {
    FlatData(path, e.data) + FlatMetadata(codec, path, e.metadata)
  }

  /** The token after every object whose label starts with `path` is destroyed. */
  function Without(t: Token, path: string): Token
  {
    map l | l in t && !HasPrefix(l, path) :: t[l]
  }

  // ------------------------------------------------ what the client relies on

  predicate Incomparable(p: string, q: string)
  {
    !HasPrefix(q, p) && !HasPrefix(p, q)
  }

  /** Every key has passed validation. */
  predicate GoodEntry(e: Entry)
  {
    forall k :: k in e.data ==> ValidKey(k)
  }

  /** `path` may be used beside the paths of the store. */
  ghost predicate Fits(s: Store, path: string)
  {
    ValidSecretPath(path) && forall q :: q in s && q != path ==> Incomparable(path, q)
  }

  ghost predicate WellFormed(s: Store)
  {
    forall p :: p in s ==> Fits(s, p) && GoodEntry(s[p])
  }

  function At(t: Token, l: string): Option<string>
  {
    if l in t then Some(t[l]) else None
  }

  /** Among the labels that start with `path`, the token holds exactly `objects`. */
  ghost predicate HoldsUnder(t: Token, path: string, objects: Token)
  {
    forall l :: HasPrefix(l, path) ==> At(t, l) == At(objects, l)
  }

  /** Every object is labelled under some path of the store. */
  ghost predicate Accounted(t: Token, s: Store)
  {
    forall l :: l in t ==> Owned(s, l)
  }

  ghost predicate Owned(s: Store, tag: string)
  {
    exists p :: p in s && HasPrefix(tag, p)
  }

  ghost predicate HoldsAll(codec: Codec, t: Token, s: Store)
  {
    forall p :: p in s ==> HoldsUnder(t, p, Flat(codec, p, s[p]))
  }

  /** The token holds exactly the objects of the secrets in the store. */
  ghost predicate Represents(codec: Codec, t: Token, s: Store)
  {
    WellFormed(s) && HoldsAll(codec, t, s) && Accounted(t, s)
  }

  // ---------------------------------------------------------------- labels

  lemma PrefixesCompare(p: string, q: string, l: string)
    requires HasPrefix(l, p) && HasPrefix(l, q)
    ensures HasPrefix(q, p) || HasPrefix(p, q)
  {
    if |p| <= |q| { assert p == l[..|p|] && q == l[..|q|]; } else { assert q == p[..|q|]; }
  }

  lemma FlatUnder(codec: Codec, path: string, e: Entry)
    ensures forall l :: l in Flat(codec, path, e) ==> HasPrefix(l, path)
  {}

  /** A suffix no longer than the second part is a suffix of it. */
  lemma SuffixOfEnd(a: string, b: string, suffix: string)
    requires HasSuffix(a + b, suffix) && |suffix| <= |b|
    ensures HasSuffix(b, suffix)
  {
    assert (a + b)[|a + b| - |suffix|..] == b[|b| - |suffix|..];
  }

  lemma KeyLabelSuffix(path: string, key: string)
    requires HasSuffix(path + "/" + key, METADATA_SUFFIX)
    ensures HasSuffix(key, "_metadata")
  {
    var l := path + "/" + key;
    var cut := |l| - |METADATA_SUFFIX|;
    assert l[cut..] == METADATA_SUFFIX;
    assert forall i :: cut < i < |l| ==> l[i] == METADATA_SUFFIX[i - cut] != '/';
    assert l[|path|] == '/';
    assert |key| >= 9;
    ShorterSuffix(l);
    SuffixOfEnd(path + "/", key, "_metadata");
  }

  lemma ShorterSuffix(s: string)
    ensures HasSuffix(s, METADATA_SUFFIX) ==> HasSuffix(s, "_metadata")
  {
    if HasSuffix(s, METADATA_SUFFIX) {
      assert s[|s| - 9..] == s[|s| - 10..][1..];
    }
  }

  /** Data labels never look like metadata labels. */
  lemma DataLabel(path: string, key: string)
    requires ValidSecretPath(path) && ValidKey(key)
    ensures !HasSuffix(LabelOf(path, key), METADATA_SUFFIX)
    ensures LabelOf(path, key) != path + METADATA_SUFFIX
  {
    ShorterSuffix(path);
    if key != DEFAULT_KEY {
      assert HasSuffix(path + "/" + key, METADATA_SUFFIX) ==> HasSuffix(key, "_metadata") by {
        if HasSuffix(path + "/" + key, METADATA_SUFFIX) { KeyLabelSuffix(path, key); }
      }
    }
    assert HasSuffix(path + METADATA_SUFFIX, METADATA_SUFFIX);
  }

  /** The key the reader takes from a label found under `path`. */
  function KeyOf(path: string, tag: string): string
    requires HasPrefix(tag, path)
  {
    var key := tag[|path|..];
    var key' := if |key| > 0 && key[0] == '/' then key[1..] else key;
    if key' == "" then DEFAULT_KEY else key'
  }

  lemma KeyOfLabel(path: string, key: string)
    requires key != ""
    ensures HasPrefix(LabelOf(path, key), path) && KeyOf(path, LabelOf(path, key)) == key
  {
    if key != DEFAULT_KEY {
      assert LabelOf(path, key)[|path|..] == "/" + key;
    } else {
      assert LabelOf(path, key)[|path|..] == "";
    }
  }

  // --------------------------------------------------- lookups in one secret

  lemma FlatDataAt(path: string, data: SecretData, k: string)
    ensures At(FlatData(path, data), LabelOf(path, k)) == if k in data then Some(data[k]) else None
  {
    forall k' ensures LabelOf(path, k) == LabelOf(path, k') ==> k == k' { LabelInjective(path, k, k'); }
  }

  lemma FlatAt(codec: Codec, path: string, e: Entry, k: string)
    requires ValidSecretPath(path) && ValidKey(k)
    ensures At(Flat(codec, path, e), LabelOf(path, k)) == if k in e.data then Some(e.data[k]) else None
  {
    DataLabel(path, k);
    FlatDataAt(path, e.data, k);
  }

  lemma FlatMetadataAt(codec: Codec, path: string, e: Entry)
    requires ValidSecretPath(path) && GoodEntry(e)
    ensures At(Flat(codec, path, e), path + METADATA_SUFFIX)
         == if e.metadata.Some? then Some(codec.marshal(e.metadata.value)) else None
  {
    forall k | k in e.data ensures LabelOf(path, k) != path + METADATA_SUFFIX { DataLabel(path, k); }
  }

  lemma FlatLabel(codec: Codec, path: string, e: Entry, l: string)
    requires l in Flat(codec, path, e)
    ensures l == path + METADATA_SUFFIX || exists k :: k in e.data && LabelOf(path, k) == l
  {}

  // ------------------------------------------------------- the writing steps

  function Written(codec: Codec, t: Token, path: string, e: Entry): Token
  {
    Without(t, path) + Flat(codec, path, e)
  }

  lemma WrittenAt(codec: Codec, t: Token, path: string, e: Entry, l: string)
    ensures At(Written(codec, t, path, e), l) == if HasPrefix(l, path) then At(Flat(codec, path, e), l) else At(t, l)
  {
    FlatUnder(codec, path, e);
  }

  /** Labels under one of two incomparable paths are not under the other. */
  lemma Disjoint(path: string, q: string, l: string)
    requires Incomparable(path, q) && HasPrefix(l, q)
    ensures !HasPrefix(l, path)
  {
    if HasPrefix(l, path) { PrefixesCompare(path, q, l); }
  }

  /** Token steps that only touch labels under `path`. */
  ghost predicate OnlyUnder(t: Token, t': Token, path: string)
  {
    forall l :: !HasPrefix(l, path) ==> At(t', l) == At(t, l)
  }

  lemma Elsewhere(t: Token, t': Token, path: string, q: string, objects: Token)
    requires OnlyUnder(t, t', path) && Incomparable(path, q) && HoldsUnder(t, q, objects)
    ensures HoldsUnder(t', q, objects)
  {
    forall l | HasPrefix(l, q) ensures At(t', l) == At(objects, l) { Disjoint(path, q, l); }
  }

  lemma WellFormedPut(s: Store, path: string, e: Entry)
    requires WellFormed(s) && Fits(s, path) && GoodEntry(e)
    ensures WellFormed(s[path := e])
  {
    var s' := s[path := e];
    forall p | p in s' ensures Fits(s', p) && GoodEntry(s'[p]) {
      if p != path { assert Fits(s, p); }
    }
  }

  lemma AccountedPut(t: Token, t': Token, s: Store, path: string, e: Entry)
    requires Accounted(t, s) && OnlyUnder(t, t', path)
    ensures Accounted(t', s[path := e])
  {
    var s' := s[path := e];
    forall l | l in t' ensures Owned(s', l) {
      if HasPrefix(l, path) {
        assert path in s';
      } else {
        assert At(t', l) == At(t, l);
        var p :| p in s && HasPrefix(l, p);
        assert p in s';
      }
    }
  }

  /** Replacing one secret's objects replaces one entry of the map. */
  lemma PutRefines(codec: Codec, t: Token, t': Token, s: Store, path: string, e: Entry)
    requires Represents(codec, t, s) && Fits(s, path) && GoodEntry(e)
    requires OnlyUnder(t, t', path) && HoldsUnder(t', path, Flat(codec, path, e))
    ensures Represents(codec, t', s[path := e])
  {
    var s' := s[path := e];
    WellFormedPut(s, path, e);
    AccountedPut(t, t', s, path, e);
    forall p | p in s' ensures HoldsUnder(t', p, Flat(codec, p, s'[p])) {
      if p != path { Elsewhere(t, t', path, p, Flat(codec, p, s[p])); }
    }
  }

  lemma WriteRefines(codec: Codec, t: Token, s: Store, path: string, e: Entry)
    requires Represents(codec, t, s) && Fits(s, path) && GoodEntry(e)
    ensures Represents(codec, Written(codec, t, path, e), s[path := e])
  {
    var t' := Written(codec, t, path, e);
    forall l ensures HasPrefix(l, path) ==> At(t', l) == At(Flat(codec, path, e), l)
             ensures !HasPrefix(l, path) ==> At(t', l) == At(t, l)
    { WrittenAt(codec, t, path, e, l); }
    PutRefines(codec, t, t', s, path, e);
  }

  lemma WellFormedDrop(s: Store, path: string)
    requires WellFormed(s)
    ensures WellFormed(s - {path})
  {
    var s' := s - {path};
    forall p | p in s' ensures Fits(s', p) && GoodEntry(s'[p]) { assert Fits(s, p); }
  }

  lemma AccountedDrop(t: Token, s: Store, path: string)
    requires Accounted(t, s)
    ensures Accounted(Without(t, path), s - {path})
  {
    forall l | l in Without(t, path) ensures Owned(s - {path}, l) {
      assert Owned(s, l);
      var p :| p in s && HasPrefix(l, p);
      assert p in s - {path};
    }
  }

  lemma HoldsDrop(codec: Codec, t: Token, s: Store, path: string, p: string)
    requires HoldsAll(codec, t, s) && p in s && Incomparable(path, p)
    ensures HoldsUnder(Without(t, path), p, Flat(codec, p, s[p]))
  {
    assert OnlyUnder(t, Without(t, path), path);
    Elsewhere(t, Without(t, path), path, p, Flat(codec, p, s[p]));
  }

  lemma DeleteRefines(codec: Codec, t: Token, s: Store, path: string)
    requires Represents(codec, t, s) && Fits(s, path)
    ensures Represents(codec, Without(t, path), s - {path})
  {
    WellFormedDrop(s, path);
    AccountedDrop(t, s, path);
    forall p | p in s - {path} ensures HoldsUnder(Without(t, path), p, Flat(codec, p, (s - {path})[p])) {
      HoldsDrop(codec, t, s, path, p);
    }
  }

  function WithoutKey(e: Entry, key: string): Entry
  {
    Entry(e.data - {key}, e.metadata)
  }

  lemma FlatWithoutKey(codec: Codec, path: string, e: Entry, key: string, l: string)
    requires ValidSecretPath(path) && ValidKey(key)
    ensures At(Flat(codec, path, WithoutKey(e, key)), l)
         == if l == LabelOf(path, key) then None else At(Flat(codec, path, e), l)
  {
    DataLabel(path, key);
    FlatDataWithoutKey(path, e.data, key, l);
  }

  lemma FlatDataWithoutKey(path: string, data: SecretData, key: string, l: string)
    ensures At(FlatData(path, data - {key}), l)
         == if l == LabelOf(path, key) then None else At(FlatData(path, data), l)
  {
    if l == LabelOf(path, key) {
      FlatDataAt(path, data - {key}, key);
    } else if l in FlatData(path, data) {
      var k :| k in data && LabelOf(path, k) == l;
      FlatDataAt(path, data, k);
      FlatDataAt(path, data - {key}, k);
    }
  }

  lemma WithoutKeyAt(codec: Codec, t: Token, path: string, e: Entry, key: string, l: string)
    requires ValidSecretPath(path) && ValidKey(key) && At(t, l) == At(Flat(codec, path, e), l)
    ensures At(t - {LabelOf(path, key)}, l) == At(Flat(codec, path, WithoutKey(e, key)), l)
  {
    FlatWithoutKey(codec, path, e, key, l);
  }

  lemma HoldsWithoutKey(codec: Codec, t: Token, path: string, e: Entry, key: string)
    requires ValidSecretPath(path) && ValidKey(key) && HoldsUnder(t, path, Flat(codec, path, e))
    ensures HoldsUnder(t - {LabelOf(path, key)}, path, Flat(codec, path, WithoutKey(e, key)))
  {
    forall l | HasPrefix(l, path)
      ensures At(t - {LabelOf(path, key)}, l) == At(Flat(codec, path, WithoutKey(e, key)), l)
    {
      WithoutKeyAt(codec, t, path, e, key, l);
    }
  }

  lemma OnlyKey(t: Token, path: string, key: string)
    ensures OnlyUnder(t, t - {LabelOf(path, key)}, path)
  {}

  /** Deleting one key destroys one object. */
  lemma DeleteKeyRefines(codec: Codec, t: Token, s: Store, path: string, key: string)
    requires Represents(codec, t, s) && path in s && ValidKey(key)
    ensures Represents(codec, t - {LabelOf(path, key)}, s[path := WithoutKey(s[path], key)])
  {
    assert Fits(s, path) && GoodEntry(s[path]);
    HoldsWithoutKey(codec, t, path, s[path], key);
    OnlyKey(t, path, key);
    PutRefines(codec, t, t - {LabelOf(path, key)}, s, path, WithoutKey(s[path], key));
  }

  lemma NotOwnedElsewhere(s: Store, path: string, tag: string)
    requires Fits(s, path) && HasPrefix(tag, path) && Owned(s, tag)
    ensures path in s
  {
    var p :| p in s && HasPrefix(tag, p);
    PrefixesCompare(p, path, tag);
  }

  /** DeleteSecretKey finds its object exactly when the map has the key. */
  lemma HasKey(codec: Codec, t: Token, s: Store, path: string, key: string)
    requires Represents(codec, t, s) && Fits(s, path) && ValidKey(key)
    ensures LabelOf(path, key) in t <==> path in s && key in s[path].data
  {
    var tag := LabelOf(path, key);
    if path in s {
      assert HoldsUnder(t, path, Flat(codec, path, s[path]));
      FlatAt(codec, path, s[path], key);
      assert HasPrefix(tag, path);
    } else if tag in t {
      NotOwnedElsewhere(s, path, tag);
    }
  }

  // ----------------------------------------------------------------- reading

  predicate DataUnder(t: Token, path: string, tag: string)
  {
    tag in t && HasPrefix(tag, path) && !HasSuffix(tag, METADATA_SUFFIX)
  }

  /** Some data object under `path` gives the key and the value. */
  ghost predicate Supplies(t: Token, path: string, key: string, value: string)
  {
    exists tag :: DataUnder(t, path, tag) && KeyOf(path, tag) == key && t[tag] == value
  }

  /** `data` holds the values of the data objects under `path`, under the keys cut from their labels. */
  ghost predicate Gathered(t: Token, path: string, data: SecretData)
  {
    && (forall tag :: DataUnder(t, path, tag) ==> KeyOf(path, tag) in data)
    && (forall k :: k in data ==> Supplies(t, path, k, data[k]))
  }

  /** A permitted answer of ReadSecret. */
  ghost predicate Answers(t: Token, path: string, r: Option<SecretData>)
  {
    match r
    case None => Gathered(t, path, map[])
    case Some(data) => data != map[] && Gathered(t, path, data)
  }

  function StoredData(s: Store, path: string): Option<SecretData>
  {
    if path in s && s[path].data != map[] then Some(s[path].data) else None
  }

  lemma DataUnderLabel(codec: Codec, t: Token, s: Store, path: string, tag: string)
    requires Represents(codec, t, s) && path in s && DataUnder(t, path, tag)
    ensures exists k :: k in s[path].data && LabelOf(path, k) == tag
  {
    assert HoldsUnder(t, path, Flat(codec, path, s[path]));
    assert At(t, tag) == At(Flat(codec, path, s[path]), tag);
    FlatLabel(codec, path, s[path], tag);
    assert HasSuffix(path + METADATA_SUFFIX, METADATA_SUFFIX);
  }

  lemma ValueAt(codec: Codec, t: Token, s: Store, path: string, k: string)
    requires Represents(codec, t, s) && path in s && k in s[path].data
    ensures DataUnder(t, path, LabelOf(path, k)) && KeyOf(path, LabelOf(path, k)) == k
    ensures t[LabelOf(path, k)] == s[path].data[k]
  {
    assert Fits(s, path) && GoodEntry(s[path]);
    assert HoldsUnder(t, path, Flat(codec, path, s[path]));
    FlatAt(codec, path, s[path], k);
    DataLabel(path, k);
    KeyOfLabel(path, k);
    assert At(t, LabelOf(path, k)) == Some(s[path].data[k]);
  }

  lemma SuppliedIsStored(codec: Codec, t: Token, s: Store, path: string, k: string, v: string)
    requires Represents(codec, t, s) && path in s && Supplies(t, path, k, v)
    ensures k in s[path].data && s[path].data[k] == v
  {
    var tag :| DataUnder(t, path, tag) && KeyOf(path, tag) == k && t[tag] == v;
    DataUnderLabel(codec, t, s, path, tag);
    var k' :| k' in s[path].data && LabelOf(path, k') == tag;
    ValueAt(codec, t, s, path, k');
  }

  lemma GatheredAt(codec: Codec, t: Token, s: Store, path: string, data: SecretData, k: string)
    requires Represents(codec, t, s) && path in s && Gathered(t, path, data)
    ensures At(data, k) == At(s[path].data, k)
  {
    if k in data { SuppliedIsStored(codec, t, s, path, k, data[k]); }
    if k in s[path].data { ValueAt(codec, t, s, path, k); }
  }

  lemma SameLookups(a: SecretData, b: SecretData)
    requires forall k :: At(a, k) == At(b, k)
    ensures a == b
  {
    forall k ensures (k in a <==> k in b) && (k in a ==> a[k] == b[k]) { assert At(a, k) == At(b, k); }
  }

  lemma GatheredIsStored(codec: Codec, t: Token, s: Store, path: string, data: SecretData)
    requires Represents(codec, t, s) && path in s && Gathered(t, path, data)
    ensures data == s[path].data
  {
    forall k ensures At(data, k) == At(s[path].data, k) { GatheredAt(codec, t, s, path, data, k); }
    SameLookups(data, s[path].data);
  }

  lemma GatheredIsNothing(codec: Codec, t: Token, s: Store, path: string, data: SecretData)
    requires Represents(codec, t, s) && Fits(s, path) && path !in s && Gathered(t, path, data)
    ensures data == map[]
  {
    assert forall k :: k !in data by {
      forall k ensures k !in data {
        if k in data {
          assert Supplies(t, path, k, data[k]);
          var tag :| DataUnder(t, path, tag) && KeyOf(path, tag) == k && t[tag] == data[k];
          NotOwnedElsewhere(s, path, tag);
        }
      }
    }
  }

  /** Reading a secret off the token gives exactly the data of the map. */
  lemma ReadRefines(codec: Codec, t: Token, s: Store, path: string, r: Option<SecretData>)
    requires Represents(codec, t, s) && Fits(s, path) && Answers(t, path, r)
    ensures r == StoredData(s, path)
  {
    var data := if r.Some? then r.value else map[];
    if path in s {
      GatheredIsStored(codec, t, s, path, data);
    } else {
      GatheredIsNothing(codec, t, s, path, data);
    }
  }

  function StoredMetadata(s: Store, path: string): Option<Metadata>
  {
    if path in s then s[path].metadata else None
  }

  function MetadataAt(codec: Codec, t: Token, path: string): Option<Metadata>
  {
    if path + METADATA_SUFFIX in t then codec.unmarshal(t[path + METADATA_SUFFIX]) else None
  }

  lemma MetadataRefines(codec: Codec, t: Token, s: Store, path: string)
    requires Faithful(codec) && Represents(codec, t, s) && Fits(s, path)
    ensures MetadataAt(codec, t, path) == StoredMetadata(s, path)
  {
    var tag := path + METADATA_SUFFIX;
    assert HasPrefix(tag, path);
    if path in s {
      assert GoodEntry(s[path]);
      assert HoldsUnder(t, path, Flat(codec, path, s[path]));
      FlatMetadataAt(codec, path, s[path]);
      assert At(t, tag) == At(Flat(codec, path, s[path]), tag);
    } else if tag in t {
      NotOwnedElsewhere(s, path, tag);
    }
  }

  // ----------------------------------------------------------------- listing

  /** A label up to its last slash; the label itself when it has none. */
  function ParentPath(tag: string): string
  {
    if '/' !in tag then tag else BeforeLastSlash(tag)
  }

  function BeforeLastSlash(tag: string): string
  {
    if tag == "" || tag[|tag| - 1] == '/' then tag[..if tag == "" then 0 else |tag| - 1]
    else BeforeLastSlash(tag[..|tag| - 1])
  }

  lemma {:induction false} CutAtLastSlash(path: string, key: string)
    requires '/' !in key
    ensures BeforeLastSlash(path + "/" + key) == path
    decreases |key|
  {
    var tag := path + "/" + key;
    if key == "" {
      assert tag[..|tag| - 1] == path;
    } else {
      assert tag[|tag| - 1] == key[|key| - 1];
      assert tag[..|tag| - 1] == path + "/" + key[..|key| - 1];
      CutAtLastSlash(path, key[..|key| - 1]);
    }
  }

  lemma {:induction false} CutShortens(tag: string)
    requires '/' in tag
    ensures |BeforeLastSlash(tag)| < |tag|
    decreases |tag|
  {
    if tag[|tag| - 1] != '/' {
      var init := tag[..|tag| - 1];
      assert tag == init + [tag[|tag| - 1]];
      CutShortens(init);
    }
  }

  lemma {:induction false} CutInsideKey(path: string, key: string)
    requires '/' in key
    ensures |BeforeLastSlash(path + "/" + key)| > |path|
    decreases |key|
  {
    var tag, init := path + "/" + key, key[..|key| - 1];
    assert tag[|tag| - 1] == key[|key| - 1];
    assert tag[..|tag| - 1] == path + "/" + init;
    if key[|key| - 1] != '/' {
      assert key == init + [key[|key| - 1]];
      CutInsideKey(path, init);
    }
  }

  /** The listing takes the right path from the label of a key. */
  predicate ListableKey(path: string, key: string)
  {
    if key == DEFAULT_KEY then '/' !in path else '/' !in key
  }

  lemma ListedPathIff(path: string, key: string)
    ensures ParentPath(LabelOf(path, key)) == path <==> ListableKey(path, key)
  {
    if key == DEFAULT_KEY {
      if '/' in path { CutShortens(path); }
    } else {
      assert LabelOf(path, key)[|path|] == '/';
      if '/' in key { CutInsideKey(path, key); } else { CutAtLastSlash(path, key); }
    }
  }

  lemma {:induction false} CutIsPrefix(tag: string)
    ensures HasPrefix(tag, BeforeLastSlash(tag))
  {
    if tag != "" && tag[|tag| - 1] != '/' {
      CutIsPrefix(tag[..|tag| - 1]);
      assert HasPrefix(tag, tag[..|tag| - 1]);
    }
  }

  function Listed(t: Token, prefix: string): set<string>
  {
    set l | l in t && !HasSuffix(l, METADATA_SUFFIX) && HasPrefix(ParentPath(l), prefix) :: ParentPath(l)
  }

  function StoredPaths(s: Store, prefix: string): set<string>
  {
    set p | p in s && s[p].data != map[] && HasPrefix(p, prefix)
  }

  ghost predicate Listable(s: Store)
  {
    forall p, k :: p in s && k in s[p].data ==> ListableKey(p, k)
  }

  lemma ListedIsStored(codec: Codec, t: Token, s: Store, l: string) returns (q: string, k: string)
    requires Represents(codec, t, s) && l in t && !HasSuffix(l, METADATA_SUFFIX)
    ensures q in s && k in s[q].data && LabelOf(q, k) == l
  {
    assert Owned(s, l);
    q :| q in s && HasPrefix(l, q);
    DataUnderLabel(codec, t, s, q, l);
    k :| k in s[q].data && LabelOf(q, k) == l;
  }

  lemma ListRefines(codec: Codec, t: Token, s: Store, prefix: string)
    requires Represents(codec, t, s) && Listable(s)
    ensures Listed(t, prefix) == StoredPaths(s, prefix)
  {
    forall p | p in Listed(t, prefix) ensures p in StoredPaths(s, prefix) {
      var l :| l in t && !HasSuffix(l, METADATA_SUFFIX) && HasPrefix(ParentPath(l), prefix) && p == ParentPath(l);
      var q, k := ListedIsStored(codec, t, s, l);
      ListedPathIff(q, k);
    }
    forall p | p in StoredPaths(s, prefix) ensures p in Listed(t, prefix) {
      var k :| k in s[p].data;
      ValueAt(codec, t, s, p, k);
      ListedPathIff(p, k);
    }
  }

  /** A label whose parent is not its secret's path is listed under a path the store does not have. */
  lemma Mislisted(codec: Codec, t: Token, s: Store, p: string, k: string)
    requires Represents(codec, t, s) && p in s && k in s[p].data && !ListableKey(p, k)
    ensures ParentPath(LabelOf(p, k)) in Listed(t, "") && ParentPath(LabelOf(p, k)) !in s
  {
    var l := LabelOf(p, k);
    ValueAt(codec, t, s, p, k);
    ListedPathIff(p, k);
    CutIsPrefix(l);
    PrefixesCompare(p, ParentPath(l), l);
    assert Fits(s, p);
  }

  /** ListSecrets answers as the map would, for every prefix, exactly when every stored key is listable. */
  lemma ListExactIff(codec: Codec, t: Token, s: Store)
    requires Represents(codec, t, s)
    ensures (forall prefix :: Listed(t, prefix) == StoredPaths(s, prefix)) <==> Listable(s)
  {
    if Listable(s) {
      forall prefix ensures Listed(t, prefix) == StoredPaths(s, prefix) { ListRefines(codec, t, s, prefix); }
    } else {
      var p, k :| p in s && k in s[p].data && !ListableKey(p, k);
      Mislisted(codec, t, s, p, k);
      assert Listed(t, "") != StoredPaths(s, "");
    }
  }
}
