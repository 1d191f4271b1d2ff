/** What the predictor predicts, told from the bytes sent since the last reset (RFC 1978). */
module Pred1Guess {
  import opened Buffers
  import opened Pred1
  import opened Pred1Link

  // ---- The hash ----

  /** The byte `k` places before position `n`, 0 before the first. */
  function Back(data: Bytes, n: nat, k: nat): bv16
    requires n <= |data| && k > 0
  {
    if k <= n then data[n - k] as bv16 else 0
  }

  /** The hash at position `n`: the four bytes before it, each four bits above the next. */
  function HashAt(data: Bytes, n: nat): bv16
    requires n <= |data|
  {
    (Back(data, n, 4) << 12) ^ (Back(data, n, 3) << 8) ^ (Back(data, n, 2) << 4) ^ Back(data, n, 1)
  }

  /** Bytes before the last four do not matter. */
  lemma FourBytes(h: bv16, a: Byte, b: Byte, c: Byte, d: Byte)
    ensures HashNext(HashNext(HashNext(HashNext(h, a), b), c), d)
         == ((a as bv16) << 12) ^ ((b as bv16) << 8) ^ ((c as bv16) << 4) ^ (d as bv16)
  {
  }

  lemma ThreeBytes(b: Byte, c: Byte, d: Byte)
    ensures HashNext(HashNext(HashNext(0, b), c), d) == ((b as bv16) << 8) ^ ((c as bv16) << 4) ^ (d as bv16)
    ensures HashNext(HashNext(0, c), d) == ((c as bv16) << 4) ^ (d as bv16)
    ensures HashNext(0, d) == d as bv16
  {
  }

  lemma Zeroes(x: bv16)
    ensures (0 as bv16) << 12 == 0 && (0 as bv16) << 8 == 0 && (0 as bv16) << 4 == 0 && 0 ^ x == x
  {
  }

  /** From any state four bytes settle the hash. */
  lemma HashSettles(g: Guess, data: Bytes)
    requires |data| >= 4
    ensures Absorb(g, data).hash == HashAt(data, |data|)
  {
    hide Absorb, HashNext;
    var n := |data|;
    var g0 := Absorb(g, data[..n - 4]);
    Grow(g, data, n - 3);
    Grow(g, data, n - 2);
    Grow(g, data, n - 1);
    Grow(g, data, n);
    assert data[..n] == data;
    FourBytes(g0.hash, data[n - 4], data[n - 3], data[n - 2], data[n - 1]);
  }

  lemma Grow(g: Guess, data: Bytes, n: nat)
    requires 0 < n <= |data|
    ensures Absorb(g, data[..n]) == Next(Absorb(g, data[..n - 1]), data[n - 1])
  {
    assert data[..n] == data[..n - 1] + [data[n - 1]];
    AbsorbSnoc(g, data[..n - 1], data[n - 1]);
  }

  /** From a reset the hash is told by the bytes since, however few. */
  lemma HashFromReset(data: Bytes, n: nat)
    requires n <= |data|
    ensures Absorb(Fresh(), data[..n]).hash == HashAt(data, n)
  {
    hide Absorb, HashNext, Fresh;
    var g := Fresh();
    assert g.hash == 0 by { FreshHash(); }
    assert Absorb(g, data[..0]) == g by { AbsorbNone(g); assert data[..0] == []; }
    if n >= 4 {
      HashSettles(g, data[..n]);
    } else if n > 0 {
      Grow(g, data, n);
      if n > 1 { Grow(g, data, n - 1); }
      if n > 2 { Grow(g, data, n - 2); }
      ThreeBytes(if n > 2 then data[n - 3] else 0, if n > 1 then data[n - 2] else 0, data[n - 1]);
    }
    Zeroes(if n > 0 then data[n - 1] as bv16 else 0);
  }

  lemma FreshHash()
    ensures Fresh().hash == 0
  {
  }

  // ---- The table ----

  /** The byte at the last of the first `n` positions that had this hash, 0 if none had. */
  function LastAfter(data: Bytes, n: nat, h: bv16): Byte
    requires n <= |data|
  {
    if n == 0 then 0 else if HashAt(data, n - 1) == h then data[n - 1] else LastAfter(data, n - 1, h)
  }

  /** Which byte that is, without recursion. */
  lemma LastAfterIs(data: Bytes, n: nat, h: bv16)
    requires n <= |data|
    ensures (forall i | 0 <= i < n :: HashAt(data, i) != h) ==> LastAfter(data, n, h) == 0
    ensures forall i | 0 <= i < n && HashAt(data, i) == h && NotSince(data, i, n, h) :: LastAfter(data, n, h) == data[i]
  {
    hide HashAt, LastAfter, NotSince;
    if forall i | 0 <= i < n :: HashAt(data, i) != h {
      NoneAfter(data, n, h);
    }
    forall i | 0 <= i < n && HashAt(data, i) == h && NotSince(data, i, n, h) ensures LastAfter(data, n, h) == data[i] {
      LastIs(data, i, n, h);
    }
  }

  /** No position after `i` has this hash. */
  predicate NotSince(data: Bytes, i: nat, n: nat, h: bv16)
    requires n <= |data|
  {
    forall j | i < j < n :: HashAt(data, j) != h
  }

  lemma {:induction false} NoneAfter(data: Bytes, n: nat, h: bv16)
    requires n <= |data| && forall i | 0 <= i < n :: HashAt(data, i) != h
    ensures LastAfter(data, n, h) == 0
  {
    hide HashAt;
    if n > 0 {
      NoneAfter(data, n - 1, h);
    }
  }

  lemma {:induction false} LastIs(data: Bytes, i: nat, n: nat, h: bv16)
    requires i < n <= |data| && HashAt(data, i) == h && NotSince(data, i, n, h)
    ensures LastAfter(data, n, h) == data[i]
  {
    hide HashAt;
    if i < n - 1 {
      LastIs(data, i, n - 1, h);
    }
  }

  lemma {:induction false} TableLearns(data: Bytes, n: nat, h: bv16)
    requires n <= |data|
    ensures Absorb(Fresh(), data[..n]).table[h as int] == LastAfter(data, n, h)
  {
    hide HashAt, Absorb, HashNext, Fresh, Next;
    if n == 0 {
      assert data[..0] == [];
      AbsorbNone(Fresh());
      FreshTable(h);
    } else {
      TableLearns(data, n - 1, h);
      Grow(Fresh(), data, n);
      HashFromReset(data, n - 1);
      NextLearns(Absorb(Fresh(), data[..n - 1]), data[n - 1], h);
    }
  }

  lemma FreshTable(h: bv16)
    ensures Fresh().table[h as int] == 0
  {
    hide Fresh;
    FreshTableAt(h as int);
  }

  lemma FreshTableAt(k: nat)
    requires k < 0x1_0000
    ensures Fresh().table[k] == 0
  {
    hide Zeros;
  }

  lemma NextLearns(g: Guess, b: Byte, h: bv16)
    ensures Next(g, b).table[h as int] == if g.hash == h then b else g.table[h as int]
  {
    hide HashNext;
    if g.hash as int == h as int {
      Indices(g.hash, h);
    }
  }

  lemma Indices(h: bv16, k: bv16)
    requires h as int == k as int
    ensures h == k
  {
    assert (h as int) as bv16 == h && (k as int) as bv16 == k;
  }

  /** The prediction at position `n`. */
  function Predicted(data: Bytes, n: nat): Byte
    requires n <= |data|
  {
    LastAfter(data, n, HashAt(data, n))
  }

  /** The byte expected is the one that last followed the same hash since the reset, or 0. */
  lemma Predicts(data: Bytes, n: nat)
    requires n <= |data|
    ensures Expect(Absorb(Fresh(), data[..n])) == Predicted(data, n)
  {
    hide HashAt, Absorb, Fresh;
    HashFromReset(data, n);
    TableLearns(data, n, HashAt(data, n));
  }

  // ---- What is sent ----

  /** The bytes from position `n` on that were not predicted. */
  function Surprises(data: Bytes, n: nat): Bytes
    requires n <= |data|
    decreases |data| - n
  {
    if n == |data| then []
    else (if Predicted(data, n) == data[n] then [] else [data[n]]) + Surprises(data, n + 1)
  }

  lemma {:induction false} MissesAre(data: Bytes, n: nat)
    requires n <= |data|
    ensures Misses(Absorb(Fresh(), data[..n]), data[n..]) == Surprises(data, n)
    decreases |data| - n
  {
    hide Absorb, Fresh, Next, Expect, Predicted;
    if n < |data| {
      Predicts(data, n);
      Grow(Fresh(), data, n + 1);
      assert data[n..][1..] == data[n + 1..];
      MissesAre(data, n + 1);
    }
  }

  predicate Bit(flags: Byte, j: nat)
    requires j < 8
  {
    (flags >> j) & 1 == 1
  }

  lemma BitIs(flags: Byte, j: nat)
    requires j < 8
    ensures IsSet(flags, Mask(j)) <==> Bit(flags, j)
  {
    if j == 0 { assert Bit(flags, 0) <==> IsSet(flags, 1); }
    else if j == 1 { assert Bit(flags, 1) <==> IsSet(flags, 2); }
    else if j == 2 { assert Bit(flags, 2) <==> IsSet(flags, 4); }
    else if j == 3 { assert Bit(flags, 3) <==> IsSet(flags, 8); }
    else if j == 4 { assert Bit(flags, 4) <==> IsSet(flags, 16); }
    else if j == 5 { assert Bit(flags, 5) <==> IsSet(flags, 32); }
    else if j == 6 { assert Bit(flags, 6) <==> IsSet(flags, 64); }
    else { assert Bit(flags, 7) <==> IsSet(flags, 128); }
  }

  /** A group of up to eight bytes after those sent since the reset: one octet whose bit `j` is set if byte
      `j` was predicted, then the bytes that were not, then the groups of the rest. */
  lemma GroupSent(before: Bytes, data: Bytes)
    requires data != []
    ensures var n := Min(8, |data|);
      var all := before + data[..n];
      var c := Compressed(Absorb(Fresh(), before), data);
      && c != []
      && (forall j | 0 <= j < 8 :: Bit(c[0], j) <==> j < n && Predicted(all, |before| + j) == data[j])
      && c[1..] == Surprises(all, |before|) + Compressed(Absorb(Fresh(), all), data[n..])
  {
    hide Absorb, Fresh, Misses, Compressed, Flags, Bit, Predicted, Surprises;
    var n := Min(8, |data|);
    var d := data[..n];
    var all, g := before + d, Absorb(Fresh(), before);
    FrontGroup(g, data);
    AbsorbAppend(Fresh(), before, d);
    assert all[..|before|] == before && all[|before|..] == d;
    MissesAre(all, |before|);
    forall j | 0 <= j < 8
      ensures Bit(Flags(g, d, 0), j) <==> j < n && Predicted(all, |before| + j) == data[j]
    {
      BitIs(Flags(g, d, 0), j);
      FlagBit(g, d, 0, j);
      if j < n {
        Predicts(all, |before| + j);
        AbsorbAppend(Fresh(), before, d[..j]);
        assert all[..|before| + j] == before + d[..j];
      }
    }
  }

  // ---- What is read ----

  /** The bytes of a group that the flags, from bit `i` on, do not mark. */
  function Literals(flags: Byte, i: nat, out: Bytes): Bytes
    requires i + |out| <= 8
    decreases out
  {
    if out == [] then [] else (if IsSet(flags, Mask(i)) then [] else [out[0]]) + Literals(flags, i + 1, out[1..])
  }

  /** One turn of decoding. */
  lemma Turn(g: Guess, flags: Byte, i: nat, src: Bytes, room: nat)
    requires i <= 8
    ensures var d := Group(g, flags, i, src, room);
      if i == 8 then d == Decoded([], src, g)
      else if room == 0 then d == Overrun
      else if IsSet(flags, Mask(i)) then
        d == Put(Expect(g), Group(Next(g, Expect(g)), flags, i + 1, src, room - 1))
      else if src == [] then d == Decoded([], src, g)
      else d == Put(src[0], Group(Next(g, src[0]), flags, i + 1, src[1..], room - 1))
  {
    hide Expect, Next, Mask, IsSet;
  }

  /** Decoded from bit `i` on as flags and source say. */
  predicate Reads(g: Guess, flags: Byte, i: nat, src: Bytes, d: Decoded)
    requires i <= 8
  {
    d.Decoded? ==>
      && |d.out| <= 8 - i
      && d.g == Absorb(g, d.out)
      && src == Literals(flags, i, d.out) + d.rest
      && (forall k | 0 <= k < |d.out| && IsSet(flags, Mask(i + k)) :: d.out[k] == Expect(Absorb(g, d.out[..k])))
      && (|d.out| < 8 - i ==> d.rest == [] && !IsSet(flags, Mask(i + |d.out|)))
  }

  lemma ReadsNothing(g: Guess, flags: Byte, i: nat, src: Bytes)
    requires i <= 8 && (i < 8 ==> src == [] && !IsSet(flags, Mask(i)))
    ensures Reads(g, flags, i, src, Decoded([], src, g))
  {
    hide Expect, Next, Mask, IsSet;
    AbsorbNone(g);
    assert Literals(flags, i, []) + src == src;
  }

  lemma ReadsOneMore(g: Guess, flags: Byte, i: nat, b: Byte, src: Bytes, src': Bytes, d: Decoded)
    requires i < 8 && d.Decoded? && Reads(Next(g, b), flags, i + 1, src', d)
    requires if IsSet(flags, Mask(i)) then b == Expect(g) && src == src' else src == [b] + src'
    ensures Reads(g, flags, i, src, Put(b, d))
  {
    hide Expect, Next, Mask, IsSet;
    var out := [b] + d.out;
    assert out[0] == b && out[1..] == d.out;
    LiteralsCons(flags, i, b, d.out);
    AbsorbCons(g, b, d.out);
    forall k | 0 <= k < |out| && IsSet(flags, Mask(i + k)) ensures out[k] == Expect(Absorb(g, out[..k])) {
      if k == 0 {
        assert out[..0] == [];
        AbsorbNone(g);
      } else {
        assert out[..k] == [b] + d.out[..k - 1] && i + k == i + 1 + (k - 1);
        AbsorbCons(g, b, d.out[..k - 1]);
      }
    }
    LiteralsRest(flags, i, b, d.out, d.rest, src, src');
  }

  lemma LiteralsCons(flags: Byte, i: nat, b: Byte, out: Bytes)
    requires i + |out| < 8
    ensures Literals(flags, i, [b] + out) == (if IsSet(flags, Mask(i)) then [] else [b]) + Literals(flags, i + 1, out)
  {
    hide Mask, IsSet;
    assert ([b] + out)[1..] == out;
  }

  lemma LiteralsRest(flags: Byte, i: nat, b: Byte, out: Bytes, rest: Bytes, src: Bytes, src': Bytes)
    requires i + |out| < 8 && src' == Literals(flags, i + 1, out) + rest
    requires if IsSet(flags, Mask(i)) then src == src' else src == [b] + src'
    ensures src == Literals(flags, i, [b] + out) + rest
  {
    hide Mask, IsSet, Literals;
    LiteralsCons(flags, i, b, out);
    Regroup(b, Literals(flags, i + 1, out), rest);
  }

  lemma Regroup(b: Byte, a: Bytes, rest: Bytes)
    ensures [b] + (a + rest) == ([b] + a) + rest && [] + a == a
  {
  }

  lemma AbsorbCons(g: Guess, b: Byte, out: Bytes)
    ensures Absorb(g, [b] + out) == Absorb(Next(g, b), out)
  {
    hide Next;
    assert ([b] + out)[1..] == out;
  }

  /** Any group, whoever wrote it: a marked byte is the one expected, the others are those of the source, and
      the group ends early only where the source does. */
  lemma {:induction false} GroupRead(g: Guess, flags: Byte, i: nat, src: Bytes, room: nat)
    requires i <= 8
    ensures Reads(g, flags, i, src, Group(g, flags, i, src, room))
    decreases 8 - i
  {
    hide Expect, Next, Mask, IsSet, Group, Reads;
    Turn(g, flags, i, src, room);
    if i == 8 || (room > 0 && !IsSet(flags, Mask(i)) && src == []) {
      ReadsNothing(g, flags, i, src);
    } else if room == 0 {
      assert Reads(g, flags, i, src, Overrun) by { OverrunReads(g, flags, i, src); }
    } else {
      var hit := IsSet(flags, Mask(i));
      var b, src' := if hit then Expect(g) else src[0], if hit then src else src[1..];
      GroupRead(Next(g, b), flags, i + 1, src', room - 1);
      var d := Group(Next(g, b), flags, i + 1, src', room - 1);
      if d.Decoded? {
        ReadsOneMore(g, flags, i, b, src, src', d);
      } else {
        OverrunReads(g, flags, i, src);
      }
    }
  }

  lemma OverrunReads(g: Guess, flags: Byte, i: nat, src: Bytes)
    requires i <= 8
    ensures Reads(g, flags, i, src, Overrun)
  {
  }

  /** The room matters only if a group fills it before its last byte. */
  lemma {:induction false} GroupRoom(g: Guess, flags: Byte, i: nat, src: Bytes, room: nat)
    requires i <= 8
    ensures var d := Group(g, flags, i, src, 8 - i);
      && d.Decoded?
      && Group(g, flags, i, src, room) == if room < 8 - i && room <= |d.out| then Overrun else d
    decreases 8 - i
  {
    hide Expect, Next, Mask, IsSet, Group;
    Turn(g, flags, i, src, 8 - i);
    Turn(g, flags, i, src, room);
    if i < 8 {
      var hit := IsSet(flags, Mask(i));
      if hit || src != [] {
        var b, src' := if hit then Expect(g) else src[0], if hit then src else src[1..];
        GroupRoom(Next(g, b), flags, i + 1, src', if room > 0 then room - 1 else 0);
      }
    }
  }

  // ---- The check sequence ----

  function Xor16(a: bv16, b: bv16): bv16 { a ^ b }

  /** The lookup table is linear... */
  lemma EntryLinear(a: bv16, b: bv16)
    ensures Entry(Xor16(a, b)) == Xor16(Entry(a), Entry(b))
  {
    hide Shift, Xor16;
    ShiftLinear(a, b);
    var a1, b1 := Shift(a), Shift(b);
    ShiftLinear(a1, b1);
    var a2, b2 := Shift(a1), Shift(b1);
    ShiftLinear(a2, b2);
    var a3, b3 := Shift(a2), Shift(b2);
    ShiftLinear(a3, b3);
    var a4, b4 := Shift(a3), Shift(b3);
    ShiftLinear(a4, b4);
    var a5, b5 := Shift(a4), Shift(b4);
    ShiftLinear(a5, b5);
    var a6, b6 := Shift(a5), Shift(b5);
    ShiftLinear(a6, b6);
    ShiftLinear(Shift(a6), Shift(b6));
  }

  lemma ShiftLinear(a: bv16, b: bv16)
    ensures Shift(Xor16(a, b)) == Xor16(Shift(a), Shift(b))
  {
    Halves(a, b);
    Parity(a, b);
    Cancels((a >> 1), (b >> 1), 0x8408);
  }

  lemma Halves(a: bv16, b: bv16)
    ensures (a ^ b) >> 1 == (a >> 1) ^ (b >> 1)
  {
  }

  lemma Parity(a: bv16, b: bv16)
    ensures (a ^ b) & 1 == 1 <==> (a & 1 == 1 <==> b & 1 != 1)
  {
  }

  lemma Cancels(x: bv16, y: bv16, p: bv16)
    ensures (x ^ p) ^ (y ^ p) == x ^ y && (x ^ p) ^ y == (x ^ y) ^ p && x ^ (y ^ p) == (x ^ y) ^ p
  {
  }

  /** ...and these entries determine it. */
  lemma EntriesOfBits()
    ensures Entry(0) == 0
    ensures Entry(0x01) == 0x1189 && Entry(0x02) == 0x2312 && Entry(0x04) == 0x4624 && Entry(0x08) == 0x8c48
    ensures Entry(0x10) == 0x1081 && Entry(0x20) == 0x2102 && Entry(0x40) == 0x4204 && Entry(0x80) == 0x8408
  {
  }

  // ---- Frames ----

  /** The length of the plaintext, below the bit that marks a compressed frame. */
  function LengthField(frame: Bytes): nat
    requires |frame| >= 2
  {
    frame[0] as int % 128 * 256 + frame[1] as int
  }

  /** The octets of a frame: length and mark, body, complement of the check sequence, low octet first. */
  lemma FrameOctets(g: Guess, data: Bytes)
    ensures var f, c := Frame(g, data), Compressed(g, data);
      var small := |c| < |data|;
      && LengthField(f) == |data| % 0x8000
      && (f[0] as int >= 128 <==> small)
      && f[2..|f| - 2] == (if small then c else data)
      && f[|f| - 2] == (!Fcs(data) & 0xff) as Byte && f[|f| - 1] == (!Fcs(data) >> 8) as Byte
  {
    hide Compressed, Crc, Marked, Head, LengthField, Trailer;
    var h, t := Head(|data|), Trailer(Fcs(data));
    var c := Compressed(g, data);
    HeadOctets(|data|);
    TrailerLength(Fcs(data));
    assert t == [(!Fcs(data) & 0xff) as Byte, (!Fcs(data) >> 8) as Byte] by { TrailerOctets(Fcs(data)); }
    if |c| < |data| {
      FramePieces([Marked(h[0]), h[1]], c, t);
    } else {
      FramePieces(h, data, t);
    }
    assert LengthField(Frame(g, data)) == LengthField(Frame(g, data)[..2]) by { FieldOfHead(Frame(g, data)); }
  }

  /** The check sequence covers the length, high octet first and without the mark, and the data. */
  lemma FcsOctets(data: Bytes)
    ensures Fcs(data) == Crc(0xffff, [(|data| / 256 % 128) as Byte, (|data| % 256) as Byte] + data)
  {
    hide Crc;
    CrcAppend(0xffff, Head(|data|), data);
  }

  lemma TrailerOctets(c: bv16)
    ensures Trailer(c) == [(!c & 0xff) as Byte, (!c >> 8) as Byte]
  {
  }

  lemma FieldOfHead(f: Bytes)
    requires |f| >= 2
    ensures LengthField(f) == LengthField(f[..2])
  {
  }

  lemma FramePieces(h: Bytes, body: Bytes, t: Bytes)
    requires |h| == 2 && |t| == 2
    ensures var f := h + body + t;
      f[..2] == h && f[0] == h[0] && f[2..|f| - 2] == body && f[|f| - 2] == t[0] && f[|f| - 1] == t[1]
  {
  }

  lemma HeadOctets(n: nat)
    ensures var h := Head(n);
      && h[0] as int < 128 && Marked(h[0]) as int >= 128
      && LengthField(h) == n % 0x8000 && LengthField([Marked(h[0]), h[1]]) == n % 0x8000
  {
    hide Marked;
    ByteKeeps(n / 256 % 128);
    ByteKeeps(n % 256);
    TopBit(Head(n)[0]);
    LengthSplits(n);
  }

  lemma TopBit(b: Byte)
    requires b as int < 128
    ensures Marked(b) as int == b as int + 128
  {
    MarkAdds(b);
  }

  lemma MarkAdds(b: Byte)
    requires b < 128
    ensures Marked(b) == b + 128 && b as int + 128 < 256
  {
  }

  lemma LengthSplits(n: nat)
    ensures n / 256 % 128 * 256 + n % 256 == n % 0x8000
  {
  }

  lemma {:induction false} DecompressedState(g: Guess, src: Bytes, room: nat)
    ensures var d := Decompressed(g, src, room);
      d.Decoded? ==> d.rest == [] && d.g == Absorb(g, d.out) && |d.out| <= room
    decreases |src|
  {
    hide Group, Absorb;
    if src == [] {
      AbsorbNone(g);
    } else {
      var d := Group(g, src[0], 0, src[1..], room);
      GroupRead(g, src[0], 0, src[1..], room);
      if d.Decoded? {
        DecompressedState(d.g, d.rest, room - |d.out|);
        var d' := Decompressed(d.g, d.rest, room - |d.out|);
        if d'.Decoded? {
          AbsorbAppend(g, d.out, d'.out);
        }
      }
    }
  }

  /** The two octets covered by the check sequence before the data: the length without the mark. */
  function Covered(frame: Bytes): Bytes
    requires |frame| >= 2
  {
    [frame[0] & 0x7f, frame[1]]
  }

  /** Where the check sequence stands. */
  function TrailerAt(frame: Bytes, n: nat): nat
    requires |frame| >= 4
  {
    if frame[0] as int < 128 then 2 + n else |frame| - 2
  }

  /** A frame that is accepted, whoever wrote it, has the length it says and a good check sequence, and its
      bytes are learnt; a raw one holds its plaintext. */
  lemma GoodFrames(g: Guess, frame: Bytes)
    requires Receive(g, frame).Good?
    ensures var r := Receive(g, frame); var n := |r.data|;
      && |frame| >= 4 && n == LengthField(frame) && r.g == Absorb(g, r.data)
      && (if frame[0] as int < 128 then n + 4 <= |frame| && r.data == frame[2..2 + n] else n <= 4096)
      && var k := TrailerAt(frame, n);
         Crc(0xffff, Covered(frame) + r.data + frame[k..k + 2]) == 0xf0b8
  {
    hide Absorb, Crc, IsMarked, Unmarked, Covered, Decompressed, LengthField;
    Top(frame[0]);
    if IsMarked(frame[0]) {
      GoodCompressed(g, frame);
    } else {
      GoodRaw(g, frame);
    }
  }

  lemma GoodCompressed(g: Guess, frame: Bytes)
    requires Receive(g, frame).Good? && IsMarked(frame[0])
    ensures var r := Receive(g, frame); var n := |frame| - 2;
      && |frame| >= 4 && |r.data| == LengthField(frame) && |r.data| <= MAX_FRAME && r.g == Absorb(g, r.data)
      && Crc(INIT_FCS, Covered(frame) + r.data + frame[n..n + 2]) == GOOD_FCS
  {
    hide Absorb, Crc, IsMarked, Unmarked, Covered, Decompressed, Checked;
    Top(frame[0]);
    SameHead(frame);
    DecompressedState(g, frame[2..|frame| - 2], MAX_FRAME);
    var n := |frame| - 2;
    assert frame[n..] == frame[n..n + 2];
    var d := Decompressed(g, frame[2..n], MAX_FRAME);
    GoodIsChecked([Unmarked(frame[0]), frame[1]], d.out, frame[n..], d.g);
  }

  lemma GoodRaw(g: Guess, frame: Bytes)
    requires Receive(g, frame).Good? && !IsMarked(frame[0])
    ensures var r := Receive(g, frame); var n := |r.data|;
      && |frame| >= 4 && n == LengthField(frame) && n + 4 <= |frame| && r.data == frame[2..2 + n]
      && r.g == Absorb(g, r.data)
      && Crc(INIT_FCS, Covered(frame) + r.data + frame[2 + n..2 + n + 2]) == GOOD_FCS
  {
    hide Absorb, Crc, IsMarked, Unmarked, Covered, Decompressed, Checked;
    Top(frame[0]);
    SameHead(frame);
    var n := LengthField(frame);
    GoodIsChecked([Unmarked(frame[0]), frame[1]], frame[2..2 + n], frame[2 + n..4 + n], Absorb(g, frame[2..2 + n]));
  }

  lemma SameHead(frame: Bytes)
    requires |frame| >= 2
    ensures [Unmarked(frame[0]), frame[1]] == Covered(frame)
  {
  }

  lemma GoodIsChecked(h: Bytes, data: Bytes, trailer: Bytes, g: Guess)
    ensures Checked(h, data, trailer, g) ==
      if Crc(INIT_FCS, h + data + trailer) == GOOD_FCS then Good(data, g) else Damaged
  {
  }

  lemma Top(b: Byte)
    ensures IsMarked(b) <==> b as int >= 128
    ensures Unmarked(b) as int == b as int % 128 && Unmarked(b) == b & 0x7f
  {
    TopOf(b);
    var u := Unmarked(b);
    assert b as int == if b >= 128 then u as int + 128 else u as int by {
      if b >= 128 {
        MarkAdds(u);
        TopBit(u);
      }
    }
  }

  lemma TopOf(b: Byte)
    ensures IsMarked(b) <==> b >= 128
    ensures Unmarked(b) < 128 && b == if b >= 128 then Marked(Unmarked(b)) else Unmarked(b)
  {
  }
}
