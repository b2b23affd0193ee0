/**
 The header that the runtime keeps in front of every object.
 */
module BoxHeaders {
  const BOX_INDEX_LIMIT: nat := 0x100000

  /** The 20-bit index field of a box. */
  type BoxIndex = i: nat | i < BOX_INDEX_LIMIT

  datatype BoxFlag =
    | WeakMark | DataMark | ClassMark | ClosureWeakMark | Destructing | Invalid
    | Static | DynamicArray | Detached | CallSiteLocal | Index | Map

  const MARK_MASK := {BoxFlag.WeakMark, BoxFlag.DataMark, BoxFlag.ClassMark, BoxFlag.ClosureWeakMark}

  /** The flags that a mark pass sets. */
  type MarkFlags = flags: set<BoxFlag> | flags <= MARK_MASK
}
