/** Predictor-1 compression: the guess table, the frame format, and the round trip of a stream.
    The 16-bit frame check sequence is the one of appendix C of RFC 1662. */
module Pred1 {
  import opened Buffers

  type Table = t: Bytes | |t| == 0x1_0000 witness seq(0x1_0000, _ => 0)

  /** One direction's state: the hash of the last bytes, and the byte seen last after each hash. */
  datatype Guess = Guess(hash: bv16, table: Table)

  function Zeros(n: nat): (z: Bytes)
    ensures |z| == n && forall i | 0 <= i < n :: z[i] == 0
  {
    if n == 0 then [] else Zeros(n - 1) + [0]
  }

  /** The state at start-up and after a reset: the table is allocated zeroed. */
  function Fresh(): Guess { Guess(0, Zeros(0x1_0000)) }

  const MAX_FRAME := 4096

  function Expect(g: Guess): Byte { g.table[g.hash as int] }

  /** A sliding sum of the last four nibbles' worth of bytes. */
  function HashNext(h: bv16, b: Byte): bv16 { (h << 4) ^ (b as bv16) }

  /** Either way a byte is sent, the table learns it and the hash moves on. */
  function Next(g: Guess, b: Byte): Guess {
    Guess(HashNext(g.hash, b), g.table[g.hash as int := b])
  }

  function Absorb(g: Guess, data: Bytes): Guess
    decreases data
  {
    if data == [] then g else Absorb(Next(g, data[0]), data[1..])
  }

  // ---- Compression ----

  function Mask(i: nat): Byte
    requires i < 8
  {
    match i
    case 0 => 1
    case 1 => 2
    case 2 => 4
    case 3 => 8
    case 4 => 16
    case 5 => 32
    case 6 => 64
    case 7 => 128
  }

  predicate IsSet(flags: Byte, mask: Byte) { flags & mask != 0 }

  /** Bit `i` onwards tells which bytes were guessed. */
  function Flags(g: Guess, data: Bytes, i: nat): Byte
    requires i + |data| <= 8
    decreases data
  {
    if data == [] then 0
    else (if Expect(g) == data[0] then Mask(i) else 0) | Flags(Next(g, data[0]), data[1..], i + 1)
  }

  /** The bytes that were not guessed. */
  function Misses(g: Guess, data: Bytes): (m: Bytes)
    ensures |m| <= |data|
    decreases data
  {
    if data == [] then []
    else (if Expect(g) == data[0] then [] else [data[0]]) + Misses(Next(g, data[0]), data[1..])
  }

  function Min(a: nat, b: nat): nat { if a < b then a else b }

  /** Groups of up to eight bytes, each a flag byte followed by the misses. */
  function Compressed(g: Guess, data: Bytes): (c: Bytes)
    ensures |c| <= |data| + (|data| + 7) / 8
    decreases data
  {
    if data == [] then []
    else
      var n := Min(8, |data|);
      [Flags(g, data[..n], 0)] + Misses(g, data[..n]) + Compressed(Absorb(g, data[..n]), data[n..])
  }

  // ---- Decompression ----

  /** The result of decoding, or that the output buffer is full. */
  datatype Decoded = Overrun | Decoded(out: Bytes, rest: Bytes, g: Guess)

  function Put(b: Byte, d: Decoded): Decoded {
    if d.Overrun? then d else d.(out := [b] + d.out)
  }

  /** One group, from flag `i` on. */
  function Group(g: Guess, flags: Byte, i: nat, src: Bytes, room: nat): (d: Decoded)
    requires i <= 8
    ensures d.Decoded? ==> |d.rest| <= |src| && |d.out| <= room
    decreases 8 - i
  {
    if i == 8 then Decoded([], src, g)
    else if room == 0 then Overrun
    else if IsSet(flags, Mask(i)) then
      Put(Expect(g), Group(Next(g, Expect(g)), flags, i + 1, src, room - 1))
    else if src == [] then Decoded([], src, g)
    else Put(src[0], Group(Next(g, src[0]), flags, i + 1, src[1..], room - 1))
  }

  function Decompressed(g: Guess, src: Bytes, room: nat): Decoded
    decreases |src|
  {
    if src == [] then Decoded([], [], g)
    else
      var d := Group(g, src[0], 0, src[1..], room);
      if d.Overrun? then d
      else
        var d' := Decompressed(d.g, d.rest, room - |d.out|);
        if d'.Overrun? then d' else d'.(out := d.out + d'.out)
  }

  // ---- Decompression undoes compression ----

  lemma MaskBits(i: nat, j: nat)
    requires i < 8 && j < 8
    ensures IsSet(Mask(i), Mask(j)) <==> i == j
  {
  }

  lemma OrBits(a: Byte, b: Byte, m: Byte)
    ensures IsSet(a | b, m) <==> IsSet(a, m) || IsSet(b, m)
  {
  }

  /** Bit `j` of the flags. */
  lemma {:induction false} FlagBit(g: Guess, data: Bytes, i: nat, j: nat)
    requires i + |data| <= 8 && j < 8
    ensures IsSet(Flags(g, data, i), Mask(j)) <==>
            i <= j < i + |data| && Expect(Absorb(g, data[..j - i])) == data[j - i]
    decreases data
  {
    hide Expect, Next;
    if data == [] {
      NoBit(j);
    } else {
      hide IsSet, Mask;
      var rest := Flags(Next(g, data[0]), data[1..], i + 1);
      FlagBit(Next(g, data[0]), data[1..], i + 1, j);
      HeadBit(Expect(g) == data[0], rest, i, j);
      if i < j < i + |data| {
        assert data[..j - i][1..] == data[1..][..j - (i + 1)];
      }
    }
  }

  lemma NoBit(j: nat)
    requires j < 8
    ensures !IsSet(0, Mask(j))
  {
  }

  lemma HeadBit(hit: bool, rest: Byte, i: nat, j: nat)
    requires i < 8 && j < 8
    ensures IsSet((if hit then Mask(i) else 0) | rest, Mask(j)) <==> (hit && i == j) || IsSet(rest, Mask(j))
  {
    hide IsSet, Mask;
    NoBit(j);
    OrBits(if hit then Mask(i) else 0, rest, Mask(j));
    MaskBits(i, j);
  }

  /** Flags `flags` from bit `i` on fit the bytes of `data` guessed from `g`. */
  predicate Marks(g: Guess, flags: Byte, i: nat, data: Bytes)
    requires i + |data| <= 8
    decreases data
  {
    if data == [] then forall j | i <= j < 8 :: !IsSet(flags, Mask(j))
    else
      && (IsSet(flags, Mask(i)) <==> Expect(g) == data[0])
      && Marks(Next(g, data[0]), flags, i + 1, data[1..])
  }

  lemma {:induction false} FlagsMark(g: Guess, data: Bytes, k: nat)
    requires k <= |data| <= 8
    ensures Marks(Absorb(g, data[..k]), Flags(g, data, 0), k, data[k..])
    decreases |data| - k
  {
    hide Expect, Next, Flags;
    var flags := Flags(g, data, 0);
    if k == |data| {
      forall j | k <= j < 8 ensures !IsSet(flags, Mask(j)) {
        FlagBit(g, data, 0, j);
      }
    } else {
      FlagBit(g, data, 0, k);
      AbsorbSnoc(g, data[..k], data[k]);
      assert data[..k + 1] == data[..k] + [data[k]];
      assert data[k..][1..] == data[k + 1..];
      FlagsMark(g, data, k + 1);
    }
  }

  lemma {:induction false} AbsorbSnoc(g: Guess, data: Bytes, b: Byte)
    ensures Absorb(g, data + [b]) == Next(Absorb(g, data), b)
    decreases data
  {
    hide Next;
    if data == [] {
      assert ([] + [b])[1..] == [];
      assert Absorb(Next(g, b), []) == Next(g, b);
    } else {
      assert (data + [b])[1..] == data[1..] + [b];
      AbsorbSnoc(Next(g, data[0]), data[1..], b);
    }
  }

  /** There is room for the data; a group that is not full must leave some. */
  predicate Roomy(n: nat, room: nat, full: bool) { n < room || (n == room && full) }

  lemma MarksNothing(g: Guess, flags: Byte, i: nat)
    requires i <= 8 && Marks(g, flags, i, [])
    ensures i < 8 ==> !IsSet(flags, Mask(i))
  {
  }

  lemma MarksTail(g: Guess, flags: Byte, i: nat, data: Bytes)
    requires i + |data| <= 8 && data != [] && Marks(g, flags, i, data)
    ensures IsSet(flags, Mask(i)) <==> Expect(g) == data[0]
    ensures Marks(Next(g, data[0]), flags, i + 1, data[1..])
  {
    hide Expect, Next;
  }

  lemma GroupEnds(g: Guess, flags: Byte, i: nat, rest: Bytes, room: nat)
    requires i <= 8 && (i < 8 ==> rest == [] && room > 0 && !IsSet(flags, Mask(i)))
    ensures Group(g, flags, i, rest, room) == Decoded([], rest, g)
  {
    hide Expect, Next;
  }

  lemma GroupHits(g: Guess, flags: Byte, i: nat, src: Bytes, room: nat, b: Byte)
    requires i < 8 && room > 0 && IsSet(flags, Mask(i)) && b == Expect(g)
    ensures Group(g, flags, i, src, room) == Put(b, Group(Next(g, b), flags, i + 1, src, room - 1))
  {
    hide Expect, Next;
  }

  lemma GroupMisses(g: Guess, flags: Byte, i: nat, src: Bytes, room: nat)
    requires i < 8 && room > 0 && !IsSet(flags, Mask(i)) && src != []
    ensures Group(g, flags, i, src, room)
         == Put(src[0], Group(Next(g, src[0]), flags, i + 1, src[1..], room - 1))
  {
    hide Expect, Next;
  }

  lemma {:induction false} GroupInverts(g: Guess, flags: Byte, i: nat, data: Bytes, rest: Bytes, room: nat)
    requires i + |data| <= 8 && Marks(g, flags, i, data)
    requires i + |data| < 8 ==> rest == []
    requires Roomy(|data|, room, i + |data| == 8)
    ensures Group(g, flags, i, Misses(g, data) + rest, room) == Decoded(data, rest, Absorb(g, data))
    decreases data
  {
    hide Expect, Next, Mask, Group, Marks;
    if data == [] {
      assert Misses(g, data) + rest == rest;
      MarksNothing(g, flags, i);
      GroupEnds(g, flags, i, rest, room);
    } else {
      var b := data[0];
      MarksTail(g, flags, i, data);
      var src' := Misses(Next(g, b), data[1..]) + rest;
      GroupInverts(Next(g, b), flags, i + 1, data[1..], rest, room - 1);
      assert data == [b] + data[1..];
      if Expect(g) == b {
        assert Misses(g, data) + rest == src';
        GroupHits(g, flags, i, src', room, b);
      } else {
        assert Misses(g, data) + rest == [b] + src';
        GroupMisses(g, flags, i, [b] + src', room);
      }
    }
  }

  lemma {:induction false} DecompressInverts(g: Guess, data: Bytes, room: nat)
    requires Roomy(|data|, room, |data| % 8 == 0)
    ensures Decompressed(g, Compressed(g, data), room) == Decoded(data, [], Absorb(g, data))
    decreases data
  {
    hide Expect, Next, Mask, Marks, Flags, Group, Absorb, Misses, Compressed, Decompressed;
    if data == [] {
      NothingInverts(g, room);
    } else {
      var n := Min(8, |data|);
      var d := data[..n];
      var rest := Compressed(Absorb(g, d), data[n..]);
      FlagsMark(g, d, 0);
      assert d[..0] == [] && d[0..] == d;
      AbsorbNone(g);
      assert |data| < 8 ==> data[n..] == [];
      FrontGroup(g, data);
      NothingInverts(Absorb(g, d), room);
      GroupInverts(g, Flags(g, d, 0), 0, d, rest, room);
      DecompressInverts(Absorb(g, d), data[n..], room - n);
      DecompressedGroup(g, Compressed(g, data), room);
      AbsorbAppend(g, d, data[n..]);
      assert data == d + data[n..];
    }
  }

  lemma AbsorbNone(g: Guess)
    ensures Absorb(g, []) == g
  {
  }

  lemma NothingInverts(g: Guess, room: nat)
    ensures Compressed(g, []) == [] && Decompressed(g, [], room) == Decoded([], [], g) && Absorb(g, []) == g
  {
  }

  /** Compressed data starts with the group of the first bytes. */
  lemma FrontGroup(g: Guess, data: Bytes)
    requires data != []
    ensures var d := data[..Min(8, |data|)];
      var c := Compressed(g, data);
      c != [] && c[0] == Flags(g, d, 0) && c[1..] == Misses(g, d) + Compressed(Absorb(g, d), data[Min(8, |data|)..])
  {
    hide Flags, Absorb, Misses;
  }

  lemma DecompressedGroup(g: Guess, src: Bytes, room: nat)
    requires src != []
    ensures var d := Group(g, src[0], 0, src[1..], room);
      Decompressed(g, src, room) ==
      if d.Overrun? then d
      else
        var d' := Decompressed(d.g, d.rest, room - |d.out|);
        if d'.Overrun? then d' else d'.(out := d.out + d'.out)
  {
    hide Group;
  }

  lemma {:induction false} AbsorbAppend(g: Guess, a: Bytes, b: Bytes)
    ensures Absorb(g, a + b) == Absorb(Absorb(g, a), b)
    decreases a
  {
    hide Next;
    if a == [] {
      assert a + b == b;
    } else {
      assert (a + b)[1..] == a[1..] + b;
      AbsorbAppend(Next(g, a[0]), a[1..], b);
    }
  }

  // ---- The frame check sequence ----

  const INIT_FCS: bv16 := 0xffff
  const GOOD_FCS: bv16 := 0xf0b8

  function Shift(v: bv16): bv16 {
    if v & 1 == 1 then (v >> 1) ^ 0x8408 else v >> 1
  }

  /** The entry of the lookup table for a byte. */
  function Entry(b: bv16): bv16 {
    Shift(Shift(Shift(Shift(Shift(Shift(Shift(Shift(b))))))))
  }

  function CrcByte(c: bv16, b: Byte): bv16 {
    (c >> 8) ^ Entry((c ^ (b as bv16)) & 0xff)
  }

  function Crc(c: bv16, data: Bytes): bv16
    decreases data
  {
    if data == [] then c else Crc(CrcByte(c, data[0]), data[1..])
  }

  /** The complement of a check sequence, low byte first. */
  function Trailer(c: bv16): Bytes {
    [(!c & 0xff) as Byte, (!c >> 8) as Byte]
  }

  /** Feeding in the complement of the low byte clears it, whatever the value was; so the two
      trailing bytes always meet the same two table entries. */
  lemma LowByteStep(c: bv16, lo: bv16)
    requires lo == !c & 0xff
    ensures (c ^ lo) & 0xff == 0xff
  {
  }

  lemma HighByteStep(c: bv16, c1: bv16, hi: bv16)
    requires hi == !c >> 8 && c1 == (c >> 8) ^ 0x0f78
    ensures (c1 ^ hi) & 0xff == 0x87 && c1 >> 8 == 0x0f
  {
  }

  lemma EntryFF()
    ensures Entry(0xff) == 0x0f78
  {
  }

  lemma Entry87()
    ensures Entry(0x87) == 0xf0b7
  {
  }

  lemma ByteOf(v: bv16)
    requires v < 0x100
    ensures (v as Byte) as bv16 == v
  {
  }

  lemma LowByteFed(c: bv16)
    ensures CrcByte(c, (!c & 0xff) as Byte) == (c >> 8) ^ 0x0f78
  {
    hide Entry;
    ByteOf(!c & 0xff);
    LowByteStep(c, !c & 0xff);
    EntryFF();
  }

  lemma HighByteFed(c: bv16)
    ensures CrcByte((c >> 8) ^ 0x0f78, (!c >> 8) as Byte) == GOOD_FCS
  {
    hide Entry;
    ByteOf(!c >> 8);
    HighByteStep(c, (c >> 8) ^ 0x0f78, !c >> 8);
    Entry87();
    assert 0x0f ^ 0xf0b7 == GOOD_FCS;
  }

  lemma TwoBytes(c: bv16, a: Byte, b: Byte)
    ensures Crc(c, [a, b]) == CrcByte(CrcByte(c, a), b)
  {
    hide CrcByte;
    assert [a, b][1..] == [b] && [b][1..] == [];
    assert Crc(CrcByte(c, a), [b]) == CrcByte(CrcByte(c, a), b);
  }

  lemma TrailerIsGood(c: bv16)
    ensures Crc(c, Trailer(c)) == GOOD_FCS == 0xf0b8
  {
    hide Crc, CrcByte;
    LowByteFed(c);
    HighByteFed(c);
    TwoBytes(c, (!c & 0xff) as Byte, (!c >> 8) as Byte);
  }
}
