/** Writing into byte buffers, described on their contents. */
module Buffers {

  type Byte = bv8
  type Bytes = seq<bv8>

  /** A number below 256 survives being made a byte. */
  lemma {:induction false} ByteKeeps(k: int)
    requires 0 <= k < 256
    ensures (k as bv8) as int == k
    decreases k
  {
    if k > 0 {
      ByteKeeps(k - 1);
      var b := (k - 1) as bv8;
      Successor(b);
      ByteOf(k, b + 1);
    } else {
      ByteOf(0, 0);
    }
  }

  lemma Successor(b: bv8)
    ensures b as int < 255 ==> (b + 1) as int == b as int + 1
  {
  }

  lemma ByteOf(k: int, b: bv8)
    requires 0 <= k < 256 && b as int == k
    ensures k as bv8 == b
  {
  }

  /** `s` with the bytes from `pos` on replaced. */
  function Splice(s: Bytes, pos: nat, b: Bytes): Bytes
    requires pos + |b| <= |s|
  {
    s[..pos] + b + s[pos + |b|..]
  }

  method CopyIn(buf: array<Byte>, pos: nat, b: Bytes)
    requires pos + |b| <= buf.Length
    modifies buf
    ensures buf[..] == Splice(old(buf[..]), pos, b)
  {
    for k := 0 to |b|
      invariant forall i | 0 <= i < k :: buf[pos + i] == b[i]
      invariant forall i | 0 <= i < buf.Length && !(pos <= i < pos + k) :: buf[i] == old(buf[i])
    {
      buf[pos + k] := b[k];
    }
  }

  /** Reading a buffer whose bytes from `off` on have been replaced by `b`. */
  lemma SpliceReads(s: Bytes, off: nat, b: Bytes, i: nat, j: nat)
    requires off + |b| <= |s|
    ensures off <= i <= j <= off + |b| ==> Splice(s, off, b)[i..j] == b[i - off..j - off]
    ensures off + |b| <= i <= j <= |s| ==> Splice(s, off, b)[i..j] == s[i..j]
  {
  }

  lemma SpliceSplice(s: Bytes, off: nat, b: Bytes, c: Bytes)
    requires off + |b| + |c| <= |s|
    ensures Splice(Splice(s, off, b), off + |b|, c) == Splice(s, off, b + c)
  {
  }

  lemma Slice(s: Bytes, off: nat, n: nat, i: nat, m: nat)
    requires off + n <= |s| && i + m <= n
    ensures s[off + i..off + i + m] == s[off..off + n][i..i + m]
  {
    var t := s[off..off + n];
    forall k {:trigger t[i..i + m][k]} | 0 <= k < m ensures t[i..i + m][k] == s[off + i..off + i + m][k] {
      assert t[i + k] == s[off + i + k];
    }
  }

  lemma SpliceNothing(s: Bytes, off: nat)
    requires off <= |s|
    ensures Splice(s, off, []) == s
  {
  }

  lemma SpliceOver(s: Bytes, off: nat, b: Bytes, c: Bytes, d: Bytes)
    requires off + |b| + |c| <= |s| && |c| == |d|
    ensures Splice(Splice(s, off, b + c), off + |b|, d) == Splice(s, off, b + d)
    ensures Splice(s, off, b + c)[off + |b|..off + |b| + |c|] == c
  {
  }

  lemma SpliceParts(s: Bytes, off: nat, b: Bytes, end: nat)
    requires off + |b| <= end <= |s|
    ensures Splice(s, off, b)[..off] == s[..off]
    ensures Splice(s, off, b)[end..] == s[end..]
    ensures b <= Splice(s, off, b)[off..end]
  {
  }
}
