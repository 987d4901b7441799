/** The runs of equal bytes of a sequence. */
module Runs {
  import opened Bits

  /** How many bytes from i on equal v. */
  function Lead(p: seq<byte>, i: nat, v: byte): (len: nat)
    requires i <= |p|
    ensures i + len <= |p| && (forall k :: i <= k < i + len ==> p[k] == v)
    ensures i + len < |p| ==> p[i + len] != v
    decreases |p| - i
  {
    if i < |p| && p[i] == v then 1 + Lead(p, i + 1, v) else 0
  }

  /** The length of the run that starts at i. */
  function RunFrom(p: seq<byte>, i: nat): (len: nat)
    requires i < |p|
    ensures len >= 1 && i + len <= |p|
  {
    Lead(p, i, p[i])
  }

  /** A run that ends where it should. */
  lemma LeadIs(p: seq<byte>, i: nat, v: byte, len: nat)
    requires i + len <= |p| && (forall k :: i <= k < i + len ==> p[k] == v)
    requires i + len < |p| ==> p[i + len] != v
    ensures Lead(p, i, v) == len
  {
  }
}
