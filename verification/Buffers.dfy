/** Writing into byte buffers in place. */
module Buffers {
  import opened Bytes

  /** `s` with `t` written over it from `offset` on. */
  function Patched(s: seq<byte>, offset: nat, t: seq<byte>): (r: seq<byte>)
    requires offset + |t| <= |s|
    ensures |r| == |s|
  {
    s[..offset] + t + s[offset + |t|..]
  }

  /** Byte by byte: the new bytes where they were written, the old ones everywhere else. */
  lemma PatchedAt(s: seq<byte>, offset: nat, t: seq<byte>, i: nat)
    requires offset + |t| <= |s| && i < |s|
    ensures Patched(s, offset, t)[i] == if offset <= i < offset + |t| then t[i - offset] else s[i]
  {
  }

  lemma PatchByte(s: seq<byte>, offset: nat, t: seq<byte>, b: byte)
    requires offset + |t| < |s|
    ensures Patched(s, offset, t)[offset + |t| := b] == Patched(s, offset, t + [b])
  {
  }

  lemma PatchNothing(s: seq<byte>, offset: nat)
    requires offset <= |s|
    ensures Patched(s, offset, []) == s
  {
  }

  lemma PatchJoin(s: seq<byte>, a: seq<byte>, b: seq<byte>)
    requires |a + b| <= |s|
    ensures Patched(Patched(s, 0, a), |a|, b) == Patched(s, 0, a + b)
  {
  }

  lemma PatchAll(s: seq<byte>, t: seq<byte>)
    requires |s| == |t|
    ensures Patched(s, 0, t) == t
  {
  }

  /** copy(dAtA[i:], data) */
  method CopyInto(dAtA: array<byte>, i: nat, data: seq<byte>) returns (end: nat)
    requires i + |data| <= dAtA.Length
    modifies dAtA
    ensures end == i + |data| && dAtA[..] == Patched(old(dAtA[..]), i, data)
  {
    forall k | 0 <= k < |data| {
      dAtA[i + k] := data[k];
    }
    end := i + |data|;
  }
}
