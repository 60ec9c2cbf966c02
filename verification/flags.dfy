/** The 16-bit HCI event flag word (`hci_event_flag`) and the three macros that
    test, set and clear it. */
module HciFlags {

  type FlagWord = bv16

  const CMD_COMPLETE: FlagWord := 1 << 0
  const CONNECT_COMPLETE: FlagWord := 1 << 1
  const DISCONNECT_COMPLETE: FlagWord := 1 << 2
  const REMOTE_NAME_COMPLETE: FlagWord := 1 << 3
  const INCOMING_REQUEST: FlagWord := 1 << 4
  const READ_BDADDR: FlagWord := 1 << 5
  const READ_VERSION: FlagWord := 1 << 6
  const DEVICE_FOUND: FlagWord := 1 << 7
  const CONNECT_EVENT: FlagWord := 1 << 8
  const LOCAL_EXTENDED_FEATURES: FlagWord := 1 << 9

  /** The ten event flags in declaration order; flag k is bit k. */
  const ALL_FLAGS: seq<FlagWord> := [
    CMD_COMPLETE, CONNECT_COMPLETE, DISCONNECT_COMPLETE, REMOTE_NAME_COMPLETE,
    INCOMING_REQUEST, READ_BDADDR, READ_VERSION, DEVICE_FOUND, CONNECT_EVENT,
    LOCAL_EXTENDED_FEATURES
  ]

  /** `hci_check_flag`: non-zero when any bit of `f` is set. */
  predicate Check(w: FlagWord, f: FlagWord) {
    w & f != 0
  }

  /** `hci_set_flag` */
  function Set(w: FlagWord, f: FlagWord): (r: FlagWord)
    ensures r & f == f
    ensures r & !f == w & !f
  {
    w | f
  }

  /** `hci_clear_flag` */
  function Clear(w: FlagWord, f: FlagWord): (r: FlagWord)
    ensures r & f == 0
    ensures r & !f == w & !f
  {
    w & !f
  }

  /** Setting a non-empty mask makes it test as present. */
  lemma SetThenCheck(w: FlagWord, f: FlagWord)
    requires f != 0
    ensures Check(Set(w, f), f)
  {
  }

  /** Clearing a mask removes all of it and touches no bit outside it. */
  lemma ClearIsLocal(w: FlagWord, f: FlagWord)
    ensures !Check(Clear(w, f), f)
    ensures Clear(w, f) & !f == w & !f
  {
  }

  /** Setting flags never makes another flag test as absent. */
  lemma SetKeeps(w: FlagWord, f: FlagWord, g: FlagWord)
    requires Check(w, g)
    ensures Check(Set(w, f), g)
  {
  }

  /** Clearing a mask leaves the test of a disjoint mask as it was. */
  lemma ClearKeeps(w: FlagWord, f: FlagWord, g: FlagWord)
    requires f & g == 0
    ensures Check(Clear(w, f), g) == Check(w, g)
  {
  }

  /** Setting one flag leaves the test of a disjoint mask as it was. */
  lemma SetOther(w: FlagWord, f: FlagWord, g: FlagWord)
    requires f & g == 0
    ensures Check(Set(w, f), g) == Check(w, g)
  {
  }

  lemma SetIdempotent(w: FlagWord, f: FlagWord)
    ensures Set(Set(w, f), f) == Set(w, f)
  {
  }

  /** Clearing after setting a flag that was absent gives back the original word. */
  lemma ClearUndoesSet(w: FlagWord, f: FlagWord)
    requires !Check(w, f)
    ensures Clear(Set(w, f), f) == w
  {
  }

  /** The ten flags are the single bits 0 through 9, so they are pairwise
      disjoint and all fit in the 16-bit flag word. */
  lemma FlagsAreDistinctBits()
    ensures |ALL_FLAGS| == 10
    ensures forall k :: 0 <= k < |ALL_FLAGS| ==> ALL_FLAGS[k] == 1 << (k as bv16)
    ensures forall i, j :: 0 <= i < j < |ALL_FLAGS| ==> ALL_FLAGS[i] & ALL_FLAGS[j] == 0
    ensures forall k :: 0 <= k < |ALL_FLAGS| ==> ALL_FLAGS[k] & (ALL_FLAGS[k] - 1) == 0 && ALL_FLAGS[k] != 0
  {
  }
}
