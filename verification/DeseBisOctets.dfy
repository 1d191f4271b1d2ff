/** DESE-bis frames octet by octet, whoever wrote them (section 6 of RFC 2419). */
module DeseBisOctets {
  import opened Buffers
  import opened DeseBis

  /** Block `k` of a text. */
  function BlockAt(t: Bytes, k: nat): Block
    requires 8 * k + 8 <= |t|
  {
    t[8 * k..8 * k + 8]
  }

  /** What block `k` is chained to: the encrypted block before, or the value at the start. */
  function Link(iv: Block, q: Bytes, k: nat): Block
    requires 8 * k <= |q|
  {
    if k == 0 then iv else BlockAt(q, k - 1)
  }

  lemma TailBlock(t: Bytes, k: nat)
    requires k > 0 && 8 * k + 8 <= |t|
    ensures BlockAt(t[8..], k - 1) == BlockAt(t, k)
  {
  }

  lemma TailLink(iv: Block, q: Bytes, k: nat)
    requires k > 0 && 8 * k <= |q| && |q| >= 8
    ensures Link(q[..8], q[8..], k - 1) == Link(iv, q, k)
  {
    if k > 1 {
      TailBlock(q, k - 1);
    }
  }

  /** Each block is encrypted with the one before mixed in... */
  lemma {:induction false} EncryptedAt(c: Cipher, iv: Block, p: Bytes, k: nat)
    requires |p| % 8 == 0 && 8 * k + 8 <= |p|
    ensures var q := Encrypt(c, iv, p); BlockAt(q, k) == c.enc(Xor(BlockAt(p, k), Link(iv, q, k)))
    decreases k
  {
    hide Xor;
    var q := Encrypt(c, iv, p);
    var b := c.enc(Xor(p[..8], iv));
    assert q[..8] == b && q[8..] == Encrypt(c, b, p[8..]);
    if k > 0 {
      EncryptedAt(c, b, p[8..], k - 1);
      TailBlock(q, k);
      TailBlock(p, k);
      TailLink(iv, q, k);
    }
  }

  /** ...and decrypted so. */
  lemma {:induction false} DecryptedAt(c: Cipher, iv: Block, q: Bytes, k: nat)
    requires |q| % 8 == 0 && 8 * k + 8 <= |q|
    ensures BlockAt(Decrypt(c, iv, q), k) == Xor(c.dec(BlockAt(q, k)), Link(iv, q, k))
    decreases k
  {
    hide Xor;
    var p := Decrypt(c, iv, q);
    assert p[..8] == Xor(c.dec(q[..8]), iv) && p[8..] == Decrypt(c, q[..8], q[8..]);
    if k > 0 {
      DecryptedAt(c, q[..8], q[8..], k - 1);
      TailBlock(q, k);
      TailBlock(p, k);
      TailLink(iv, q, k);
    }
  }

  /** A plaintext is followed by its padding, 1, 2, 3 and so on up to a multiple of eight octets; by nothing
      if it is one already and its last octet, or that of the header if it is empty, is not 1 to 8. */
  lemma PaddedExactly(p: Bytes, seqNo: Word)
    ensures var w := Padded(p, seqNo); var n := |w| - |p|; var pad := w[|p|..];
      var last := if p == [] then seqNo % 256 else p[|p| - 1] as int;
      && |w| % 8 == 0 && 0 <= n <= 8 && w[..|p|] == p
      && (forall i | 0 <= i < n :: pad[i] as int == i + 1)
      && (n == 0 <==> |p| % 8 == 0 && !(1 <= last <= 8))
      && (n == 8 <==> |p| % 8 == 0 && 1 <= last <= 8)
  {
    hide Padding;
    var w := Padded(p, seqNo);
    assert w[..|p|] == p && w[|p|..] == Padding(PadLength(|p|, LastByte(p, seqNo)));
  }

  /** A frame: the sequence number, high octet first, and the encrypted blocks. */
  lemma FrameOctets(c: Cipher, x: End, p: Bytes)
    ensures var f := Frame(c, x, p);
      && |f| >= 2 && Number(f[0], f[1]) == x.seqNo
      && f[2..] == Encrypt(c, x.iv, Padded(p, x.seqNo))
      && Sent(c, x, p).seqNo == (if x.seqNo == 0xffff then 0 else x.seqNo + 1)
      && Sent(c, x, p).iv == (if |f| == 2 then x.iv else f[|f| - 8..])
  {
    hide Encrypt, Padded, Header, Number;
    HeaderReads(x.seqNo);
    Pieces(Header(x.seqNo), Encrypt(c, x.iv, Padded(p, x.seqNo)));
  }

  lemma Pieces(h: Bytes, q: Bytes)
    requires |h| == 2 && |q| % 8 == 0
    ensures var f := h + q;
      |f| >= 2 && f[0] == h[0] && f[1] == h[1] && f[2..] == q && (q != [] ==> f[|f| - 8..] == q[|q| - 8..])
  {
  }

  /** Numbers are read high octet first. */
  lemma NumberIs(hi: Byte, lo: Byte)
    ensures Number(hi, lo) == hi as int * 256 + lo as int
  {
  }

  /** Any frame: bogus if it is not a number and whole blocks, dropped if the number is not the one expected,
      and otherwise decrypted without what its last octet says is padding. Unless it is bogus the receiver
      goes on from its number and its last block. */
  lemma AnyFrame(c: Cipher, r: End, frame: Bytes)
    ensures var (got, r') := Receive(c, r, frame);
      var whole := |frame| >= 10 && |frame| % 8 == 2;
      && (got.Bogus? <==> !whole) && (!whole ==> r' == r)
      && (whole ==>
            var n := Number(frame[0], frame[1]); var q := frame[2..];
            && r'.iv == q[|q| - 8..] && r'.seqNo == (if n == 0xffff then 0 else n + 1)
            && (got.Dropped? <==> n != r.seqNo)
            && (got.Plain? ==>
                  var p := Decrypt(c, r.iv, q); var last := p[|p| - 1] as int;
                  got.data == if 1 <= last <= 8 then p[..|p| - last] else p))
  {
    hide Decrypt, Number;
    if |frame| >= 10 {
      WholeBlocks(|frame|);
    }
  }

  lemma WholeBlocks(n: nat)
    requires n >= 2
    ensures (n - 2) % 8 == 0 <==> n % 8 == 2
  {
  }
}
