/** Copies of one secret on the HSM devices, keyed by device serial number. */
module Replica {
  import opened Checksum

  datatype Option<+T> = None | Some(value: T)

  const MAX_INT64: int := 0x7FFF_FFFF_FFFF_FFFF
  const MIN_INT64: int := -0x8000_0000_0000_0000

  type Int64 = x: int | MIN_INT64 <= x <= MAX_INT64

  /** The sync.version label: absent or empty, present but not a number, or a counter. */
  datatype VersionLabel = Missing | Garbled | Counter(n: Int64)

  /** The sync labels of a metadata record: sync.version, sync.timestamp as Unix
      seconds when it parses, and sync.deleted.  A copy with no metadata record
      reads like one with no labels. */
  datatype Labels = Labels(version: VersionLabel, time: Option<int>, deleted: bool)

  const NO_LABELS := Labels(Missing, None, false)

  datatype Slot = Absent | Copy(data: SecretData, labels: Labels)

  type Slots = map<string, Slot>

  function MetadataVersion(labels: Labels): Int64
  {
    if labels.version.Counter? then labels.version.n else 0
  }

  function MetadataTimestamp(labels: Labels): int
  {
    if labels.time.Some? then labels.time.value else MetadataVersion(labels)
  }

  /** Every copy carries a version counter and a timestamp. */
  ghost predicate FullyLabelled(slots: Slots)
  {
    forall d :: d in slots && slots[d].Copy? ==> slots[d].labels.version.Counter? && slots[d].labels.time.Some?
  }

  ghost predicate SomeCopy(slots: Slots)
  {
    exists d :: d in slots && slots[d].Copy?
  }
}
