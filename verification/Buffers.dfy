/** Copying into buffers. */
module Buffers {

  /** memcpy of s to out[off..]. */
  method CopyInto<T>(out: array<T>, off: nat, s: seq<T>)
    requires off + |s| <= out.Length
    modifies out
    ensures out[..] == old(out[..off]) + s + old(out[off + |s|..])
  {
    forall i | 0 <= i < |s| {
      out[off + i] := s[i];
    }
  }
}
