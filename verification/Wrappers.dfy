/** Small shared definitions. */
module Wrappers {

  datatype Option<+T> = None | Some(value: T)

  ghost predicate NoRepeat<T>(s: seq<T>) {
    forall i, j :: 0 <= i < j < |s| ==> s[i] != s[j]
  }

  /** `s` takes the elements of `t` at rising positions `at`: some of them, in their order. */
  ghost predicate Picks<T>(s: seq<T>, t: seq<T>, at: seq<nat>) {
    && |at| == |s|
    && (forall k :: 0 <= k < |s| ==> at[k] < |t| && s[k] == t[at[k]])
    && (forall k, l :: 0 <= k < l < |s| ==> at[k] < at[l])
  }

  lemma {:induction false} PicksNext<T>(s: seq<T>, t: seq<T>, at: seq<nat>, x: T)
    requires Picks(s, t, at)
    ensures Picks(s, t + [x], at) && Picks(s + [x], t + [x], at + [|t|])
  {
  }
}

/** Limits that several parts of the data plane share. */
module Limits {

  /** The largest IP packet on the virtual interface. */
  const MAX_TUN := 1350

  /** The hop limit of a new packet. */
  const DEFAULT_TTL := 8
}
