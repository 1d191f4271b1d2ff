/** DESE-bis as an object: blocks are transformed in place in the frame's buffer. */
module DeseBisClass {
  import opened Buffers
  import opened DeseBis

  class DeseBisState {
    const cipher: Cipher
    var xmitIvec: Block
    var recvIvec: Block
    var xmitSeq: Word
    var recvSeq: Word

    ghost function Xmit(): End
      reads this
    {
      End(xmitIvec, xmitSeq)
    }

    ghost function Recv(): End
      reads this
    {
      End(recvIvec, recvSeq)
    }

    constructor (cipher: Cipher)
      ensures this.cipher == cipher && xmitSeq == 0 && recvSeq == 0
    {
      this.cipher := cipher;
      xmitIvec, recvIvec := [0, 0, 0, 0, 0, 0, 0, 0], [0, 0, 0, 0, 0, 0, 0, 0];
      xmitSeq, recvSeq := 0, 0;
    }

    /** The nonce sent in a Configure-Request starts the chain of what we send. */
    method BuildConfigReq(nonce: Block) returns (option: Bytes)
      modifies this`xmitIvec
      ensures option == [3, 10] + nonce == NonceOption(nonce) && xmitIvec == nonce
    {
      xmitIvec := nonce;
      option := [3, 10] + nonce;
    }

    /** The nonce in the peer's Configure-Request starts the chain of what we receive; an option of
        the wrong length is rejected. */
    method DecodeConfigReq(option: Bytes) returns (ack: bool)
      requires |option| >= 2
      modifies this`recvIvec
      ensures ack <==> |option| == 10
      ensures recvIvec == TakenFrom(option, old(recvIvec))
    {
      ack := |option| == 10;
      if ack {
        recvIvec := option[2..];
      }
    }

    /** When negotiation is over both directions count from 0. */
    method Init()
      modifies this`xmitSeq, this`recvSeq
      ensures Xmit() == End(old(xmitIvec), 0) && Recv() == End(old(recvIvec), 0)
    {
      xmitSeq, recvSeq := 0, 0;
    }

    method EncryptBlocks(buf: array<Byte>, off: nat, clen: nat)
      requires off + clen <= buf.Length && clen % 8 == 0
      modifies this`xmitIvec, buf
      ensures buf[..] == Splice(old(buf[..]), off,
                                Encrypt(cipher, old(xmitIvec), old(buf[off..off + clen])))
      ensures xmitIvec == Chained(old(xmitIvec), Encrypt(cipher, old(xmitIvec), old(buf[off..off + clen])))
    {
      hide Splice, Xor, Encrypt, EncSoFar, Chained;
      ghost var s, iv := buf[..], xmitIvec;
      ghost var p := s[off..off + clen];
      assert buf[off..off + clen] == p;
      ghost var done: Bytes := [];
      var k := 0;
      SpliceNothing(s, off);
      EncryptStarts(cipher, iv, p);
      while k < clen
        invariant 0 <= k <= clen && k % 8 == 0 && |done| == k
        invariant buf[..] == Splice(s, off, done)
        invariant EncSoFar(cipher, iv, p, done, xmitIvec)
      {
        var at := off + k;
        SpliceReads(s, off, done, at, at + 8);
        Slice(s, off, clen, k, 8);
        assert buf[at..at + 8] == buf[..][at..at + 8] == p[k..k + 8];
        EncryptOneMore(cipher, iv, p, done, xmitIvec);
        var block: Block := cipher.enc(Xor(buf[at..at + 8], xmitIvec));
        CopyIn(buf, at, block);
        SpliceSplice(s, off, done, block);
        done := done + block;
        xmitIvec := block;
        k := k + 8;
      }
      EncryptEnds(cipher, iv, p, done, xmitIvec);
    }

    /** Header, plaintext and padding, before encryption. */
    method FillFrame(buf: array<Byte>, plain: Bytes, seqNo: Word) returns (clen: nat)
      requires buf.Length >= 10 + |plain|
      modifies buf
      ensures clen == |Padded(plain, seqNo)| && 2 + clen <= buf.Length
      ensures buf[..] == Splice(old(buf[..]), 0, Header(seqNo) + Padded(plain, seqNo))
    {
      hide Splice, Header, Padding;
      var n := |plain|;
      var padlen := 8 - n % 8;
      ghost var s := buf[..];
      var header := Header(seqNo);
      CopyIn(buf, 0, header);
      CopyIn(buf, 2, plain);
      SpliceSplice(s, 0, header, plain);
      SpliceReads(s, 0, header + plain, n + 1, n + 2);
      assert buf[n + 1] == buf[..][n + 1..n + 2][0] == (header + plain)[n + 1..n + 2][0];
      LastRead(header, plain, seqNo);
      var last := buf[n + 1] as int;
      if padlen > 7 && (last == 0 || last > 8) {
        padlen := padlen - 8;
      }
      CopyIn(buf, 2 + n, Padding(padlen));
      SpliceSplice(s, 0, header + plain, Padding(padlen));
      clen := n + padlen;
      assert header + plain + Padding(padlen) == header + Padded(plain, seqNo);
    }

    method EncryptFrame(plain: Bytes) returns (frame: Bytes)
      modifies this`xmitIvec, this`xmitSeq
      ensures frame == Frame(cipher, old(Xmit()), plain)
      ensures Xmit() == Sent(cipher, old(Xmit()), plain)
    {
      hide Encrypt, Splice, Chained, Header, Padded;
      var buf := new Byte[10 + |plain|];
      ghost var s := buf[..];
      var clen := FillFrame(buf, plain, xmitSeq);
      ghost var header, padded := Header(xmitSeq), Padded(plain, xmitSeq);
      ghost var q := Encrypt(cipher, xmitIvec, padded);
      xmitSeq := (xmitSeq + 1) % 0x1_0000;
      SpliceReads(s, 0, header + padded, 2, 2 + clen);
      assert buf[2..2 + clen] == buf[..][2..2 + clen] == padded;
      EncryptBlocks(buf, 2, clen);
      SpliceOver(s, 0, header, padded, q);
      SpliceReads(s, 0, header + q, 0, 2 + clen);
      frame := buf[..2 + clen];
      assert frame == buf[..][0..2 + clen] == header + q;
    }

    method DecryptBlocks(buf: array<Byte>, off: nat, clen: nat)
      requires off + clen <= buf.Length && clen % 8 == 0
      modifies this`recvIvec, buf
      ensures buf[..] == Splice(old(buf[..]), off,
                                Decrypt(cipher, old(recvIvec), old(buf[off..off + clen])))
      ensures recvIvec == Chained(old(recvIvec), old(buf[off..off + clen]))
    {
      hide Splice, Xor, Decrypt, Chained, DecSoFar;
      ghost var s, iv := buf[..], recvIvec;
      ghost var q := s[off..off + clen];
      assert buf[off..off + clen] == q;
      ghost var done: Bytes := [];
      var k := 0;
      SpliceNothing(s, off);
      DecryptStarts(cipher, iv, q);
      while k < clen
        invariant 0 <= k <= clen && k % 8 == 0 && |done| == k
        invariant buf[..] == Splice(s, off, done)
        invariant DecSoFar(cipher, iv, q, done, recvIvec)
      {
        var at := off + k;
        SpliceReads(s, off, done, at, at + 8);
        Slice(s, off, clen, k, 8);
        assert buf[at..at + 8] == buf[..][at..at + 8] == q[k..k + 8];
        DecryptOneMore(cipher, iv, q, done, recvIvec);
        var next: Block := buf[at..at + 8];
        var block := Xor(cipher.dec(next), recvIvec);
        CopyIn(buf, at, block);
        SpliceSplice(s, off, done, block);
        done := done + block;
        recvIvec := next;
        k := k + 8;
      }
      DecryptEnds(cipher, iv, q, done, recvIvec);
    }

    method StripPadding(buf: array<Byte>, off: nat, clen: nat) returns (data: Bytes)
      requires clen >= 8 && off + clen <= buf.Length
      ensures data == Stripped(buf[off..off + clen])
    {
      ghost var p := buf[off..off + clen];
      var last := buf[off + clen - 1] as int;
      assert buf[off + clen - 1] == p[clen - 1];
      var n := if 0 < last <= 8 then clen - last else clen;
      assert buf[off..off + n] == p[..n];
      data := buf[off..off + n];
    }

    method DecryptFrame(frame: array<Byte>) returns (r: Received)
      modifies this`recvIvec, this`recvSeq, frame
      ensures (r, Recv()) == Receive(cipher, old(Recv()), old(frame[..]))
    {
      hide Decrypt, Splice, Number, Stripped, Chained;
      var clen := frame.Length - 2;
      if clen < 8 || clen % 8 != 0 {
        return Bogus;
      }
      ghost var s := frame[..];
      ghost var q := s[2..];
      assert frame[2..2 + clen] == q;
      var seqNo: Word := Number(frame[0], frame[1]);
      if seqNo != recvSeq {
        recvIvec := frame[clen - 6..];
        assert frame[clen - 6..] == q[|q| - 8..] == Chained(old(recvIvec), q) by { ChainedIs(old(recvIvec), q); }
        recvSeq := if seqNo == 0xffff then 0 else seqNo + 1;
        return Dropped;
      }
      recvSeq := if recvSeq == 0xffff then 0 else recvSeq + 1;
      DecryptBlocks(frame, 2, clen);
      ghost var p := Decrypt(cipher, old(recvIvec), q);
      SpliceReads(s, 2, p, 2, 2 + clen);
      assert frame[2..2 + clen] == frame[..][2..2 + clen] == p;
      var data := StripPadding(frame, 2, clen);
      return Plain(data);
    }
  }

  /** Option type 3, ten bytes long. */
  function NonceOption(nonce: Block): Bytes { [3, 10] + nonce }

  function TakenFrom(option: Bytes, recv: Block): Block {
    if |option| == 10 then option[2..] else recv
  }

  /** The nonce one side puts into its option is what the other takes out, so that after both have
      started counting the first frame, whatever is in it, arrives. */
  method HandOver(a: DeseBisState, b: DeseBisState, nonce: Block, plain: Bytes) returns (r: Received)
    requires a != b && a.cipher == b.cipher && Sound(a.cipher) && plain != []
    modifies a, b
    ensures r == Plain(plain) && a.Xmit() == b.Recv()
  {
    var option := a.BuildConfigReq(nonce);
    assert option[2..] == nonce;
    var ack := b.DecodeConfigReq(option);
    a.Init();
    b.Init();
    FrameReceived(a.cipher, a.Xmit(), b.Recv(), plain);
    var frame := a.EncryptFrame(plain);
    var buf := new Byte[|frame|](i requires 0 <= i < |frame| => frame[i]);
    assert buf[..] == frame;
    r := b.DecryptFrame(buf);
  }

  // ---- Single steps ----

  /** `done` encrypts the first blocks of `p`, and `cur` is what the next one is chained to. */
  predicate EncSoFar(c: Cipher, iv: Block, p: Bytes, done: Bytes, cur: Block)
    requires |p| % 8 == 0
  {
    && |done| % 8 == 0 && |done| <= |p| && cur == Chained(iv, done)
    && Encrypt(c, iv, p) == done + Encrypt(c, cur, p[|done|..])
  }

  lemma EncryptStarts(c: Cipher, iv: Block, p: Bytes)
    requires |p| % 8 == 0
    ensures EncSoFar(c, iv, p, [], iv)
  {
    hide Encrypt;
    assert p[0..] == p && [] + Encrypt(c, iv, p) == Encrypt(c, iv, p);
  }

  lemma EncryptOneMore(c: Cipher, iv: Block, p: Bytes, done: Bytes, cur: Block)
    requires |p| % 8 == 0 && EncSoFar(c, iv, p, done, cur) && |done| < |p|
    ensures |done| + 8 <= |p|
    ensures var b := c.enc(Xor(p[|done|..|done| + 8], cur)); EncSoFar(c, iv, p, done + b, b)
  {
    hide Encrypt, Xor, Chained, EncSoFar;
    Whole(c, iv, p, done, cur);
    EncryptStep(c, cur, p, |done|);
    OneMore(c, iv, p, done, cur, c.enc(Xor(p[|done|..|done| + 8], cur)));
  }

  lemma Whole(c: Cipher, iv: Block, p: Bytes, done: Bytes, cur: Block)
    requires |p| % 8 == 0 && EncSoFar(c, iv, p, done, cur) && |done| < |p|
    ensures |done| % 8 == 0 && |done| + 8 <= |p|
  {
    hide Encrypt, Chained;
  }

  lemma OneMore(c: Cipher, iv: Block, p: Bytes, done: Bytes, cur: Block, b: Block)
    requires |p| % 8 == 0 && EncSoFar(c, iv, p, done, cur) && |done| + 8 <= |p|
    requires Encrypt(c, cur, p[|done|..]) == b + Encrypt(c, b, p[|done| + 8..])
    ensures EncSoFar(c, iv, p, done + b, b)
  {
    hide Encrypt, Chained;
    Regroup(done, b, Encrypt(c, b, p[|done| + 8..]));
    ChainedTo(iv, done, b);
  }

  lemma ChainedIs(iv: Block, q: Bytes)
    requires |q| % 8 == 0 && |q| >= 8
    ensures Chained(iv, q) == q[|q| - 8..]
  {
  }

  lemma Regroup(done: Bytes, b: Block, rest: Bytes)
    ensures done + (b + rest) == (done + b) + rest
  {
  }

  lemma ChainedTo(iv: Block, done: Bytes, b: Block)
    requires |done| % 8 == 0
    ensures Chained(iv, done + b) == b
  {
    assert (done + b)[|done|..] == b;
  }

  lemma EncryptEnds(c: Cipher, iv: Block, p: Bytes, done: Bytes, cur: Block)
    requires |p| % 8 == 0 && EncSoFar(c, iv, p, done, cur) && |done| == |p|
    ensures done == Encrypt(c, iv, p) && cur == Chained(iv, done)
  {
    assert p[|done|..] == [] && done + [] == done;
  }

  lemma EncryptStep(c: Cipher, iv: Block, p: Bytes, k: nat)
    requires |p| % 8 == 0 && k % 8 == 0 && k < |p|
    ensures var b := c.enc(Xor(p[k..k + 8], iv));
            Encrypt(c, iv, p[k..]) == b + Encrypt(c, b, p[k + 8..])
  {
    hide Xor;
    assert p[k..][..8] == p[k..k + 8] && p[k..][8..] == p[k + 8..];
  }

  /** `done` decrypts the first blocks of `q`, and `cur` is the last block read. */
  predicate DecSoFar(c: Cipher, iv: Block, q: Bytes, done: Bytes, cur: Block)
    requires |q| % 8 == 0
  {
    && |done| % 8 == 0 && |done| <= |q| && cur == Chained(iv, q[..|done|])
    && Decrypt(c, iv, q) == done + Decrypt(c, cur, q[|done|..])
  }

  lemma DecryptStarts(c: Cipher, iv: Block, q: Bytes)
    requires |q| % 8 == 0
    ensures DecSoFar(c, iv, q, [], iv)
  {
    hide Decrypt;
    assert q[0..] == q && q[..0] == [] && [] + Decrypt(c, iv, q) == Decrypt(c, iv, q);
  }

  lemma DecryptOneMore(c: Cipher, iv: Block, q: Bytes, done: Bytes, cur: Block)
    requires |q| % 8 == 0 && DecSoFar(c, iv, q, done, cur) && |done| < |q|
    ensures |done| + 8 <= |q|
    ensures var b := q[|done|..|done| + 8]; DecSoFar(c, iv, q, done + Xor(c.dec(b), cur), b)
  {
    hide Decrypt, Xor, Chained;
    var k := |done|;
    var b: Block := q[k..k + 8];
    var x := Xor(c.dec(b), cur);
    DecryptStep(c, cur, q, k);
    Regroup(done, x, Decrypt(c, b, q[k + 8..]));
    assert q[..k + 8] == q[..k] + b;
    ChainedTo(iv, q[..k], b);
  }

  lemma DecryptEnds(c: Cipher, iv: Block, q: Bytes, done: Bytes, cur: Block)
    requires |q| % 8 == 0 && DecSoFar(c, iv, q, done, cur) && |done| == |q|
    ensures done == Decrypt(c, iv, q) && cur == Chained(iv, q)
  {
    assert q[|done|..] == [] && q[..|done|] == q && done + [] == done;
  }

  lemma DecryptStep(c: Cipher, iv: Block, q: Bytes, k: nat)
    requires |q| % 8 == 0 && k % 8 == 0 && k < |q|
    ensures Decrypt(c, iv, q[k..])
         == Xor(c.dec(q[k..k + 8]), iv) + Decrypt(c, q[k..k + 8], q[k + 8..])
  {
    hide Xor;
    assert q[k..][..8] == q[k..k + 8] && q[k..][8..] == q[k + 8..];
  }

  lemma LastRead(header: Bytes, p: Bytes, n: Word)
    requires header == Header(n)
    ensures (header + p)[|p| + 1] as int == LastByte(p, n)
  {
    LowByte(n);
    hide Header;
    var s := header + p;
    if p == [] {
      assert s[1] == header[1];
    } else {
      assert s[|p| + 1] == p[|p| - 1];
    }
  }

  lemma LowByte(n: Word)
    ensures Header(n)[1] as int == n % 256
  {
    assert ((n % 256) as Byte) as int == n % 256;
  }
}
