/** The compressor and decompressor as they update the guess tables byte by byte. */
module Pred1Class {
  import opened Buffers
  import opened Pred1
  import opened Pred1Link

  function SetBits(flags: Byte, mask: Byte): Byte { flags | mask }

  function NextBit(mask: Byte): Byte { mask << 1 }

  class Predictor {
    var iHash: bv16
    var oHash: bv16
    const inTable: array<Byte>
    const outTable: array<Byte>

    ghost predicate Valid()
      reads this
    {
      inTable.Length == 0x1_0000 && outTable.Length == 0x1_0000 && inTable != outTable
    }

    ghost function In(): Guess
      requires Valid()
      reads this, inTable
    {
      Guess(iHash, inTable[..])
    }

    ghost function Out(): Guess
      requires Valid()
      reads this, outTable
    {
      Guess(oHash, outTable[..])
    }

    constructor ()
      ensures Valid() && fresh(inTable) && fresh(outTable)
      ensures In() == Fresh() && Out() == Fresh()
    {
      iHash, oHash := 0, 0;
      inTable := new Byte[0x1_0000](_ => 0);
      outTable := new Byte[0x1_0000](_ => 0);
      new;
      assert inTable[..] == Zeros(0x1_0000) && outTable[..] == Zeros(0x1_0000);
    }

    // ---- One byte ----

    method Learn(b: Byte)
      requires Valid()
      modifies this`oHash, outTable
      ensures Out() == Next(old(Out()), b)
    {
      hide HashNext;
      Store(outTable, oHash as int, b);
      oHash := HashNext(oHash, b);
    }

    method LearnIn(b: Byte)
      requires Valid()
      modifies this`iHash, inTable
      ensures In() == Next(old(In()), b)
    {
      hide HashNext;
      Store(inTable, iHash as int, b);
      iHash := HashNext(iHash, b);
    }

    method Look() returns (b: Byte)
      requires Valid()
      ensures b == Expect(In())
    {
      b := inTable[iHash as int];
    }

    // ---- Compression ----

    /** Was the byte guessed?  Either way the table learns it. */
    method Guessed(b: Byte) returns (hit: bool)
      requires Valid()
      modifies this`oHash, outTable
      ensures hit <==> Expect(old(Out())) == b
      ensures Out() == Next(old(Out()), b)
    {
      hide Next;
      hit := outTable[oHash as int] == b;
      Learn(b);
    }

    /** One group of up to eight bytes.  The flags are known, and go in front, only at the end. */
    method CompressGroup(group: Bytes) returns (piece: Bytes)
      requires Valid() && 0 < |group| <= 8
      modifies this`oHash, outTable
      ensures Out() == Absorb(old(Out()), group)
      ensures piece == [Flags(old(Out()), group, 0)] + Misses(old(Out()), group)
    {
      hide Next, Expect, Mask, Flags, Misses, Absorb, SetBits, NextBit;
      ghost var g := Out();
      AbsorbNothing(g);
      var flags: Byte, bitmask: Byte := 0, 1;
      var misses: Bytes := [];
      var i := 0;
      assert group[..0] == [] && group[0..] == group;
      assert [] + Misses(g, group) == Misses(g, group);
      NoFlags(Flags(g, group, 0));
      FirstMask();
      while i < |group|
        invariant 0 <= i <= |group|
        invariant i < 8 ==> bitmask == Mask(i)
        invariant Out() == Absorb(g, group[..i])
        invariant SetBits(flags, Flags(Out(), group[i..], i)) == Flags(g, group, 0)
        invariant misses + Misses(Out(), group[i..]) == Misses(g, group)
      {
        var b := group[i];
        ghost var tail := group[i..];
        assert tail[0] == b && tail[1..] == group[i + 1..];
        AbsorbSnoc(g, group[..i], b);
        assert group[..i + 1] == group[..i] + [b];
        FlagsStep(flags, Out(), tail, i);
        MissesStep(misses, Out(), tail);
        NextMask(i);
        var hit := Guessed(b);
        if hit {
          flags := SetBits(flags, bitmask);
        } else {
          misses := misses + [b];
        }
        bitmask := NextBit(bitmask);
        i := i + 1;
      }
      assert group[|group|..] == [] && group[..|group|] == group;
      FlagsEnd(flags, Out(), i);
      assert misses + [] == misses;
      piece := [flags] + misses;
    }

    method Compress(source: Bytes) returns (out: Bytes)
      requires Valid()
      modifies this`oHash, outTable
      ensures Out() == Absorb(old(Out()), source)
      ensures out == Compressed(old(Out()), source)
    {
      hide Next, Expect, Mask, Flags, Misses, Absorb, Compressed;
      ghost var g := Out();
      var pos := 0;
      out := [];
      AbsorbNothing(g);
      assert [] + Compressed(g, source) == Compressed(g, source);
      assert source[0..] == source && source[..0] == [];
      while pos < |source|
        invariant 0 <= pos <= |source|
        invariant Out() == Absorb(g, source[..pos])
        invariant Compressed(g, source) == out + Compressed(Out(), source[pos..])
      {
        var n := Min(8, |source| - pos);
        var group := source[pos..pos + n];
        ghost var cur, rest := Out(), source[pos..];
        assert rest[..n] == group && rest[n..] == source[pos + n..];
        AbsorbAppend(g, source[..pos], group);
        assert source[..pos + n] == source[..pos] + group;
        var piece := CompressGroup(group);
        CompressedStep(cur, rest);
        assert out + (piece + Compressed(Out(), rest[n..])) == (out + piece) + Compressed(Out(), rest[n..]);
        out := out + piece;
        pos := pos + n;
      }
      assert source[..pos] == source && source[pos..] == [];
      CompressedNothing(Out());
      assert out + [] == out;
    }

    // ---- Decompression ----

    /** One group.  Stops early when the source runs out; `full` says that there is no more room. */
    method DecompressGroup(flags: Byte, source: Bytes, from: nat, room: nat)
      returns (full: bool, sp: nat, piece: Bytes)
      requires Valid() && from <= |source|
      modifies this`iHash, inTable
      ensures var d := Group(old(In()), flags, 0, source[from..], room);
              if full then d.Overrun?
              else from <= sp <= |source| && d == Decoded(piece, source[sp..], In())
    {
      hide Next, Mask, Expect, Group, NextBit, IsSet;
      ghost var g := In();
      sp, piece, full := from, [], false;
      var bitmask: Byte := 1;
      var i := 0;
      FirstMask();
      PrependedNothing(Group(g, flags, 0, source[from..], room));
      while i < 8
        invariant 0 <= i <= 8 && from <= sp <= |source| && |piece| <= room
        invariant i < 8 ==> bitmask == Mask(i)
        invariant Group(g, flags, 0, source[from..], room)
               == Prepended(piece, Group(In(), flags, i, source[sp..], room - |piece|))
        decreases 8 - i
      {
        ghost var cur, src := In(), source[sp..];
        ghost var left: nat := room - |piece|;
        if |piece| >= room {
          GroupFull(cur, flags, i, src);
          return true, sp, piece;
        }
        var b: Byte;
        if IsSet(flags, bitmask) {
          b := Look();
          GroupHits(cur, flags, i, src, left, b);
        } else {
          if sp == |source| {
            assert src == [];
            GroupEnds(cur, flags, i, src, left);
            assert piece + [] == piece;
            return false, sp, piece;
          }
          b := source[sp];
          GroupMisses(cur, flags, i, src, left);
          assert src[1..] == source[sp + 1..];
          sp := sp + 1;
        }
        LearnIn(b);
        PutPrepends(piece, b, Group(In(), flags, i + 1, source[sp..], left - 1));
        piece := piece + [b];
        NextMask(i);
        bitmask := NextBit(bitmask);
        i := i + 1;
      }
      GroupEnds(In(), flags, 8, source[sp..], room - |piece|);
      assert piece + [] == piece;
    }

    /** `full` stands for the result -1: there is too little room. */
    method Decompress(source: Bytes, room: nat) returns (full: bool, out: Bytes)
      requires Valid()
      modifies this`iHash, inTable
      ensures var d := Decompressed(old(In()), source, room);
              if full then d.Overrun? else d == Decoded(out, [], In())
    {
      hide Group, Next, Expect;
      ghost var g := In();
      var sp := 0;
      full, out := false, [];
      assert source[0..] == source;
      PrependedNothing(Decompressed(g, source, room));
      while sp < |source|
        invariant 0 <= sp <= |source| && |out| <= room
        invariant Decompressed(g, source, room)
               == Prepended(out, Decompressed(In(), source[sp..], room - |out|))
        decreases |source| - sp
      {
        ghost var cur, src := In(), source[sp..];
        assert src[1..] == source[sp + 1..];
        var f, sp', piece := DecompressGroup(source[sp], source, sp + 1, room - |out|);
        if f {
          return true, out;
        }
        DecompressStep(cur, src, room - |out|, piece, source[sp'..], In());
        PrependedTwice(out, piece, Decompressed(In(), source[sp'..], room - |out| - |piece|));
        sp, out := sp', out + piece;
      }
      assert source[sp..] == [];
      assert out + [] == out;
    }

    /** A frame sent uncompressed still trains the table. */
    method SyncTable(source: Bytes)
      requires Valid()
      modifies this`iHash, inTable
      ensures In() == Absorb(old(In()), source)
    {
      hide Next, Expect;
      ghost var g := In();
      assert source[..0] == [];
      for i := 0 to |source|
        invariant In() == Absorb(g, source[..i])
      {
        AbsorbSnoc(g, source[..i], source[i]);
        assert source[..i + 1] == source[..i] + [source[i]];
        LearnIn(source[i]);
      }
      assert source[..|source|] == source;
    }

    // ---- Frames ----

    method CompressFrame(plain: Bytes) returns (frame: Bytes)
      requires Valid()
      modifies this`oHash, outTable
      ensures frame == Frame(old(Out()), plain)
      ensures Out() == Absorb(old(Out()), plain)
    {
      hide Compressed, Absorb, Trailer, Crc, Head, Marked;
      var head := Head(|plain|);
      var fcs := Crc(Crc(INIT_FCS, head), plain);
      var c := Compress(plain);
      if |c| < |plain| {
        frame := [Marked(head[0]), head[1]] + c;
      } else {
        frame := head + plain;
      }
      frame := frame + Trailer(fcs);
    }

    /** A frame that does not check makes the receiver start afresh and ask for a reset. */
    method DecompressFrame(frame: Bytes) returns (r: Received, resetReq: bool)
      requires Valid() && |frame| >= 4
      requires !IsMarked(frame[0]) ==> Stated(frame[0], frame[1]) + 4 <= |frame|
      modifies this`iHash, inTable
      ensures r == Receive(old(In()), frame)
      ensures resetReq <==> r.Damaged?
      ensures In() == if r.Good? then r.g else Fresh()
    {
      hide Decompressed, Absorb, Crc, Unmarked, IsMarked, Receive, Checked, Fresh, Stated;
      ghost var g := In();
      var ok, data, trailer := ReadBody(frame);
      ReceiveCases(g, frame);
      var head := [Unmarked(frame[0]), frame[1]];
      CheckedIs(head, data, trailer, In());
      if !ok || Crc(INIT_FCS, head + data + trailer) != GOOD_FCS {
        ResetIn();
        return Damaged, true;
      }
      return Good(data, Guess(iHash, inTable[..])), false;
    }

    /** The plaintext and check sequence of a frame; not `ok` if the plaintext has not the length stated. */
    method ReadBody(frame: Bytes) returns (ok: bool, data: Bytes, trailer: Bytes)
      requires Valid() && |frame| >= 4
      requires !IsMarked(frame[0]) ==> Stated(frame[0], frame[1]) + 4 <= |frame|
      modifies this`iHash, inTable
      ensures BodyRead(old(In()), frame, ok, data, trailer, In())
    {
      hide Decompressed, Absorb, IsMarked, Stated;
      var n := Stated(frame[0], frame[1]);
      if IsMarked(frame[0]) {
        var full, out := Decompress(frame[2..|frame| - 2], MAX_FRAME);
        return !full && |out| == n, out, frame[|frame| - 2..];
      }
      SyncTable(frame[2..2 + n]);
      return true, frame[2..2 + n], frame[2 + n..4 + n];
    }

    /** Sending a ResetReq, and receiving a ResetAck, start the decompressor afresh. */
    method ResetIn()
      requires Valid()
      modifies this`iHash, inTable
      ensures In() == Fresh()
    {
      iHash := 0;
      Clear(inTable);
    }

    /** Receiving a ResetReq starts the compressor afresh. */
    method ResetOut()
      requires Valid()
      modifies this`oHash, outTable
      ensures Out() == Fresh()
    {
      oHash := 0;
      Clear(outTable);
    }
  }

  method Store(t: array<Byte>, k: nat, b: Byte)
    requires k < t.Length
    modifies t
    ensures t[..] == old(t[..])[k := b]
  {
    t[k] := b;
  }

  method Clear(t: array<Byte>)
    requires t.Length == 0x1_0000
    modifies t
    ensures t[..] == Zeros(0x1_0000)
  {
    forall i | 0 <= i < t.Length {
      t[i] := 0;
    }
  }

  // ---- Facts about single steps ----

  /** What reading a frame comes to. */
  predicate BodyRead(g: Guess, frame: Bytes, ok: bool, data: Bytes, trailer: Bytes, g': Guess)
    requires |frame| >= 4
    requires !IsMarked(frame[0]) ==> Stated(frame[0], frame[1]) + 4 <= |frame|
  {
    var n := Stated(frame[0], frame[1]);
    if IsMarked(frame[0]) then
      var d := Decompressed(g, frame[2..|frame| - 2], MAX_FRAME);
      && (ok <==> d.Decoded? && |d.out| == n)
      && (ok ==> data == d.out && g' == d.g && trailer == frame[|frame| - 2..])
    else ok && data == frame[2..2 + n] && trailer == frame[2 + n..4 + n] && g' == Absorb(g, data)
  }

  /** What reception comes to, for marked and for raw frames. */
  lemma ReceiveCases(g: Guess, frame: Bytes)
    requires |frame| >= 4
    requires !IsMarked(frame[0]) ==> Stated(frame[0], frame[1]) + 4 <= |frame|
    ensures var h := [Unmarked(frame[0]), frame[1]];
      var n := Stated(frame[0], frame[1]);
      Receive(g, frame) ==
      if IsMarked(frame[0]) then
        var d := Decompressed(g, frame[2..|frame| - 2], MAX_FRAME);
        if d.Overrun? || |d.out| != n then Damaged else Checked(h, d.out, frame[|frame| - 2..], d.g)
      else Checked(h, frame[2..2 + n], frame[2 + n..4 + n], Absorb(g, frame[2..2 + n]))
  {
    hide Decompressed, Absorb, Crc, Unmarked, IsMarked, Checked, Stated;
  }

  lemma CheckedIs(h: Bytes, data: Bytes, trailer: Bytes, g: Guess)
    ensures Checked(h, data, trailer, g) == if Crc(INIT_FCS, h + data + trailer) == GOOD_FCS then Good(data, g)
        else Damaged
  {
    hide Crc;
  }

  lemma AbsorbNothing(g: Guess)
    ensures Absorb(g, []) == g
  {}

  lemma CompressedNothing(g: Guess)
    ensures Compressed(g, []) == []
  {}

  lemma CompressedStep(g: Guess, data: Bytes)
    requires data != []
    ensures var n := Min(8, |data|);
            Compressed(g, data) == [Flags(g, data[..n], 0)] + Misses(g, data[..n])
                                   + Compressed(Absorb(g, data[..n]), data[n..])
  {
    hide Next, Expect, Mask, Flags, Misses, Absorb;
  }

  lemma FirstMask()
    ensures Mask(0) == 1
  {}

  lemma NextMask(i: nat)
    requires i < 8
    ensures i + 1 < 8 ==> Mask(i + 1) == NextBit(Mask(i))
  {}

  lemma NoFlags(f: Byte)
    ensures SetBits(0, f) == f
  {}

  lemma GroupFull(g: Guess, flags: Byte, i: nat, src: Bytes)
    requires i < 8
    ensures Group(g, flags, i, src, 0) == Overrun
  {}

  lemma FlagsStep(flags: Byte, g: Guess, data: Bytes, i: nat)
    requires data != [] && i + |data| <= 8
    ensures var rest := Flags(Next(g, data[0]), data[1..], i + 1);
            SetBits(flags, Flags(g, data, i)) ==
            SetBits(if Expect(g) == data[0] then SetBits(flags, Mask(i)) else flags, rest)
  {
    hide Next, Expect, Mask;
    var m: Byte, rest: Byte := Mask(i), Flags(Next(g, data[0]), data[1..], i + 1);
    OrAssociates(flags, m, rest);
    NoFlags(rest);
  }

  lemma OrAssociates(a: Byte, b: Byte, c: Byte)
    ensures a | (b | c) == (a | b) | c
  {}

  lemma FlagsEnd(flags: Byte, g: Guess, i: nat)
    requires i <= 8
    ensures SetBits(flags, Flags(g, [], i)) == flags
    ensures Misses(g, []) == []
  {}

  lemma MissesStep(done: Bytes, g: Guess, data: Bytes)
    requires data != []
    ensures var rest := Misses(Next(g, data[0]), data[1..]);
            done + Misses(g, data) == (if Expect(g) == data[0] then done else done + [data[0]]) + rest
  {
    hide Next, Expect;
  }

  /** Output already written in front of the rest of a decoding. */
  function Prepended(done: Bytes, d: Decoded): Decoded {
    if d.Overrun? then d else d.(out := done + d.out)
  }

  lemma PutPrepends(done: Bytes, b: Byte, d: Decoded)
    ensures Prepended(done, Put(b, d)) == Prepended(done + [b], d)
  {
    if d.Decoded? {
      assert done + ([b] + d.out) == (done + [b]) + d.out;
    }
  }

  lemma PrependedNothing(d: Decoded)
    ensures Prepended([], d) == d
  {
    if d.Decoded? {
      assert [] + d.out == d.out;
    }
  }

  lemma PrependedTwice(a: Bytes, b: Bytes, d: Decoded)
    ensures Prepended(a, Prepended(b, d)) == Prepended(a + b, d)
  {
    if d.Decoded? {
      assert a + (b + d.out) == (a + b) + d.out;
    }
  }

  lemma DecompressStep(g: Guess, src: Bytes, room: nat, piece: Bytes, rest: Bytes, g': Guess)
    requires src != [] && Group(g, src[0], 0, src[1..], room) == Decoded(piece, rest, g')
    ensures |piece| <= room
    ensures Decompressed(g, src, room) == Prepended(piece, Decompressed(g', rest, room - |piece|))
  {
    hide Group;
  }
}
