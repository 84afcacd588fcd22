/** The two checksum routines over secret data.

The HSM client sorts the keys with an exchange sort written by hand and prefixes
the digest with "sha256:"; the mirror sorts with the library and does not.  The
digest itself, as hexadecimal text, is the parameter `hex`.
*/
module Checksum {
  import opened GoStrings
  import opened Resolve

  /** Key to value, both as byte strings. */
  type SecretData = map<string, string>

  function Stream(keys: seq<string>, data: SecretData): string
    requires forall k :: k in keys ==> k in data
  {
    if keys == [] then "" else keys[0] + data[keys[0]] + Stream(keys[1..], data)
  }

  /** What is hashed: keys in ascending order, each followed by its value. */
  ghost function CanonicalStream(data: SecretData): string
  {
    assert forall k :: k in Ascending(data.Keys) ==> k in Elements(Ascending(data.Keys));
    Stream(Ascending(data.Keys), data)
  }

  ghost function MirrorSum(hex: string -> string, data: SecretData): string
  {
    hex(CanonicalStream(data))
  }

  ghost function HsmSum(hex: string -> string, data: SecretData): string
  {
    "sha256:" + hex(CanonicalStream(data))
  }

  // --------------------------------------------------------- exchange sort

  /** Every one of the first `i` elements is at most all that follow it. */
  ghost predicate PrefixDone(s: seq<string>, i: int)
  {
    forall p, q :: 0 <= p < q < |s| && p < i ==> LessEq(s[p], s[q])
  }

  /** Besides, element `i` is at most the elements between it and `j`. */
  ghost predicate RowDone(s: seq<string>, i: int, j: int)
    requires 0 <= i < |s| && j <= |s|
  {
    PrefixDone(s, i) && forall q :: i < q < j ==> LessEq(s[i], s[q])
  }

  function Swapped(s: seq<string>, i: nat, j: nat): seq<string>
    requires i < |s| && j < |s|
  {
    s[i := s[j]][j := s[i]]
  }

  lemma SwapKeepsRow(s: seq<string>, i: nat, j: nat)
    requires i < j < |s| && RowDone(s, i, j) && Less(s[j], s[i])
    ensures RowDone(Swapped(s, i, j), i, j + 1) && multiset(Swapped(s, i, j)) == multiset(s)
  {
    var t := Swapped(s, i, j);
    forall q | i < q < j + 1 ensures LessEq(t[i], t[q]) {
      if q < j { LessEqTransitive(s[j], s[i], s[q]); }
    }
    forall p, q | 0 <= p < q < |t| && p < i ensures LessEq(t[p], t[q]) {
      assert LessEq(s[p], s[i]) && LessEq(s[p], s[j]) && LessEq(s[p], s[q]);
    }
  }

  lemma KeepRow(s: seq<string>, i: nat, j: nat)
    requires i < j < |s| && RowDone(s, i, j) && !Less(s[j], s[i])
    ensures RowDone(s, i, j + 1)
  {
    LessTotal(s[i], s[j]);
  }

  /** The hand-written sort leaves what the library sort would. */
  method ExchangeSort(keys: array<string>)
    modifies keys
    ensures keys[..] == SortStrings(old(keys[..]))
  {
    var i := 0;
    while i < keys.Length - 1
      invariant 0 <= i && (i < keys.Length || keys.Length <= 1)
      invariant PrefixDone(keys[..], i) && multiset(keys[..]) == multiset(old(keys[..]))
    {
      var j := i + 1;
      while j < keys.Length
        invariant i < j <= keys.Length
        invariant RowDone(keys[..], i, j) && multiset(keys[..]) == multiset(old(keys[..]))
      {
        ghost var before := keys[..];
        if Less(keys[j], keys[i]) {
          SwapKeepsRow(before, i, j);
          keys[i], keys[j] := keys[j], keys[i];
          assert keys[..] == Swapped(before, i, j);
        } else {
          KeepRow(before, i, j);
        }
        j := j + 1;
      }
      i := i + 1;
    }
    SortedUnique(keys[..], SortStrings(old(keys[..])));
  }

  // -------------------------------------------------------------- hashing

  lemma {:induction false} StreamSnoc(keys: seq<string>, k: string, data: SecretData)
    requires forall x :: x in keys + [k] ==> x in data
    ensures Stream(keys + [k], data) == Stream(keys, data) + k + data[k]
  {
    if keys == [] {
      assert ([] + [k])[1..] == [];
    } else {
      assert (keys + [k])[1..] == keys[1..] + [k];
      StreamSnoc(keys[1..], k, data);
    }
  }

  method HashKeys(keys: seq<string>, data: SecretData) returns (written: string)
    requires forall k :: k in keys ==> k in data
    ensures written == Stream(keys, data)
  {
    written := "";
    for n := 0 to |keys|
      invariant written == Stream(keys[..n], data)
    {
      assert keys[..n+1] == keys[..n] + [keys[n]];
      StreamSnoc(keys[..n], keys[n], data);
      written := written + keys[n] + data[keys[n]];
    }
    assert keys[..|keys|] == keys;
  }

  lemma SortedKeysOf(keys: seq<string>, data: SecretData)
    requires Distinct(keys) && Elements(keys) == data.Keys
    ensures SortStrings(keys) == Ascending(data.Keys)
    ensures forall k :: k in SortStrings(keys) ==> k in data
  {
    SortDistinct(keys);
    assert forall k :: k in Ascending(data.Keys) ==> k in Elements(Ascending(data.Keys));
  }

  method CalculateChecksum(hex: string -> string, data: SecretData) returns (sum: string)
    ensures sum == HsmSum(hex, data)
  {
    var unsorted := KeysOf(data);
    var keys := new string[|unsorted|](i requires 0 <= i < |unsorted| => unsorted[i]);
    assert keys[..] == unsorted;
    ExchangeSort(keys);
    SortedKeysOf(unsorted, data);
    var written := HashKeys(keys[..], data);
    sum := "sha256:" + hex(written);
  }

  method CalculateMirrorChecksum(hex: string -> string, data: SecretData) returns (sum: string)
    ensures sum == MirrorSum(hex, data)
  {
    var keys := KeysOf(data);
    SortedKeysOf(keys, data);
    var written := HashKeys(SortStrings(keys), data);
    sum := hex(written);
  }

  /** Devices agree under one routine exactly when they agree under the other,
      and no content can be mistaken for a tombstone. */
  lemma SumsAgree(hex: string -> string, a: SecretData, b: SecretData)
    ensures HsmSum(hex, a) == HsmSum(hex, b) <==> MirrorSum(hex, a) == MirrorSum(hex, b)
    ensures HsmSum(hex, a) == "sha256:" + MirrorSum(hex, a) && HsmSum(hex, a) != TOMBSTONE_CHECKSUM
  {
    assert HsmSum(hex, a)[7..] == MirrorSum(hex, a) && HsmSum(hex, b)[7..] == MirrorSum(hex, b);
    assert HsmSum(hex, a)[0] == 's';
  }
}
