/** DESE-bis: cipher block chaining across frames, padding, and recovery from lost frames
    (section 6 of RFC 2419).  The block cipher is any pair of inverse functions. */
module DeseBis {
  import opened Buffers

  type Block = b: Bytes | |b| == 8 witness [0, 0, 0, 0, 0, 0, 0, 0]
  type Word = n: int | 0 <= n < 0x1_0000

  datatype Cipher = Cipher(enc: Block -> Block, dec: Block -> Block)

  predicate Inverse(c: Cipher, b: Block) { c.dec(c.enc(b)) == b }

  /** What the cipher has to offer: decryption undoes encryption. */
  ghost predicate Sound(c: Cipher) { forall b: Block :: Inverse(c, b) }

  /** One end of one direction: the chaining value and the next sequence number. */
  datatype End = End(iv: Block, seqNo: Word)

  datatype Option<+T> = None | Some(value: T)

  function Mix(a: Byte, b: Byte): Byte { a ^ b }

  lemma MixTwice(a: Byte, b: Byte)
    ensures Mix(Mix(a, b), b) == a
  {
  }

  lemma MixInjective(d: Byte, a: Byte, b: Byte)
    ensures Mix(d, a) == Mix(d, b) <==> a == b
  {
  }

  function Xor(a: Block, b: Block): (x: Block)
    ensures forall i | 0 <= i < 8 :: x[i] == Mix(a[i], b[i])
  {
    hide Mix;
    seq(8, i requires 0 <= i < 8 => Mix(a[i], b[i]))
  }

  lemma XorTwice(a: Block, b: Block)
    ensures Xor(Xor(a, b), b) == a
  {
    hide Mix, Xor;
    forall i | 0 <= i < 8 ensures Xor(Xor(a, b), b)[i] == a[i] {
      MixTwice(a[i], b[i]);
    }
  }

  // ---- Chaining ----

  function Encrypt(c: Cipher, iv: Block, p: Bytes): (q: Bytes)
    requires |p| % 8 == 0
    ensures |q| == |p|
    decreases p
  {
    if p == [] then []
    else
      var b := c.enc(Xor(p[..8], iv));
      b + Encrypt(c, b, p[8..])
  }

  function Decrypt(c: Cipher, iv: Block, q: Bytes): (p: Bytes)
    requires |q| % 8 == 0
    ensures |p| == |q|
    decreases q
  {
    if q == [] then []
    else Xor(c.dec(q[..8]), iv) + Decrypt(c, q[..8], q[8..])
  }

  /** The chaining value after a frame: its last block. */
  function Chained(iv: Block, q: Bytes): Block
    requires |q| % 8 == 0
  {
    if q == [] then iv else q[|q| - 8..]
  }

  lemma {:induction false} DecryptEncrypt(c: Cipher, iv: Block, p: Bytes)
    requires Sound(c) && |p| % 8 == 0
    ensures Decrypt(c, iv, Encrypt(c, iv, p)) == p
    decreases p
  {
    hide Xor;
    if p != [] {
      var q := Encrypt(c, iv, p);
      var x := Xor(p[..8], iv);
      assert Inverse(c, x);
      XorTwice(p[..8], iv);
      assert q[..8] == c.enc(x) && q[8..] == Encrypt(c, c.enc(x), p[8..]);
      DecryptEncrypt(c, c.enc(x), p[8..]);
      assert p == p[..8] + p[8..];
    }
  }

  // ---- Padding ----

  /** How many bytes of padding a plaintext gets, given the byte before its padding. */
  function PadLength(n: nat, last: int): nat {
    if n % 8 == 0 then (if last == 0 || last > 8 then 0 else 8) else 8 - n % 8
  }

  /** The byte in front of the padding: for an empty plaintext, the low byte of the header. */
  function LastByte(p: Bytes, seqNo: Word): int {
    if p == [] then seqNo % 256 else p[|p| - 1] as int
  }

  /** Padding counts up from one, so its last byte is its length. */
  function Padding(n: nat): (s: Bytes)
    requires n <= 8
    ensures |s| == n && forall i | 0 <= i < n :: s[i] as int == i + 1
  {
    if n == 0 then [] else Padding(n - 1) + [n as Byte]
  }

  function Padded(p: Bytes, seqNo: Word): (q: Bytes)
    ensures |q| % 8 == 0
  {
    p + Padding(PadLength(|p|, LastByte(p, seqNo)))
  }

  function Stripped(q: Bytes): Bytes
    requires |q| >= 8
  {
    var last := q[|q| - 1] as int;
    if 0 < last <= 8 then q[..|q| - last] else q
  }

  lemma StripPadded(p: Bytes, seqNo: Word)
    requires p != []
    ensures |Padded(p, seqNo)| >= 8 && Stripped(Padded(p, seqNo)) == p
  {
    hide Padding, Stripped;
    var n := PadLength(|p|, LastByte(p, seqNo));
    var q := Padded(p, seqNo);
    StripTail(q, p, n);
  }

  lemma StripTail(q: Bytes, p: Bytes, n: nat)
    requires n <= 8 <= |q| && q == p + Padding(n)
    requires n == 0 ==> q[|q| - 1] as int == 0 || q[|q| - 1] as int > 8
    ensures Stripped(q) == p
  {
    hide Padding;
    if n > 0 {
      assert q[|q| - 1] == Padding(n)[n - 1];
    }
    assert q[..|q| - n] == p;
  }

  // ---- Frames ----

  function Header(n: Word): (h: Bytes)
    ensures |h| == 2
  {
    [(n / 256) as Byte, (n % 256) as Byte]
  }

  function Number(hi: Byte, lo: Byte): Word { (hi as int) * 256 + lo as int }

  function Frame(c: Cipher, x: End, p: Bytes): Bytes {
    Header(x.seqNo) + Encrypt(c, x.iv, Padded(p, x.seqNo))
  }

  /** The sender after a frame. */
  function Sent(c: Cipher, x: End, p: Bytes): End {
    End(Chained(x.iv, Encrypt(c, x.iv, Padded(p, x.seqNo))), (x.seqNo + 1) % 0x1_0000)
  }

  /** Bogus: not a whole number of blocks.  Dropped: out of sequence, but the receiver catches up. */
  datatype Received = Bogus | Dropped | Plain(data: Bytes)

  function Receive(c: Cipher, r: End, frame: Bytes): (Received, End) {
    if |frame| < 10 || (|frame| - 2) % 8 != 0 then (Bogus, r)
    else
      var seqNo := Number(frame[0], frame[1]);
      var q := frame[2..];
      var r' := End(Chained(r.iv, q), (seqNo + 1) % 0x1_0000);
      if seqNo != r.seqNo then (Dropped, r') else (Plain(Stripped(Decrypt(c, r.iv, q))), r')
  }

  lemma HeaderReads(n: Word)
    ensures Number(Header(n)[0], Header(n)[1]) == n
  {
    ByteKeeps(n / 256);
    ByteKeeps(n % 256);
  }

  /** Whatever the receiver's state, a frame leaves it where it left the sender; its plaintext comes
      out if the sequence number is the expected one, and is right if the chaining values agree. */
  lemma FrameReceived(c: Cipher, x: End, r: End, p: Bytes)
    requires Sound(c) && p != []
    ensures var (got, r') := Receive(c, r, Frame(c, x, p));
            && r' == Sent(c, x, p)
            && (got.Dropped? <==> r.seqNo != x.seqNo)
            && (r == x ==> got == Plain(p))
  {
    hide Encrypt, Decrypt, Padded, Stripped, Header, Number;
    var q := Encrypt(c, x.iv, Padded(p, x.seqNo));
    var f := Frame(c, x, p);
    StripPadded(p, x.seqNo);
    HeaderReads(x.seqNo);
    assert f[2..] == q;
    DecryptEncrypt(c, x.iv, Padded(p, x.seqNo));
  }

  // ---- A lossy stream ----

  /** What became of a frame. */
  datatype Fate = Lost | Got(r: Received)

  /** The receiver's view of the frames sent from `x`, those with `delivered[i]` arriving. */
  function Stream(c: Cipher, x: End, r: End, plain: seq<Bytes>, delivered: seq<bool>): (fates: seq<Fate>)
    requires |plain| == |delivered|
    ensures |fates| == |plain|
    decreases plain
  {
    if plain == [] then []
    else
      var x' := Sent(c, x, plain[0]);
      if delivered[0] then
        var (got, r') := Receive(c, r, Frame(c, x, plain[0]));
        [Got(got)] + Stream(c, x', r', plain[1..], delivered[1..])
      else [Lost] + Stream(c, x', r, plain[1..], delivered[1..])
  }

  /** No frame arrives right after 65536 or more losses; `gap` have occurred already. */
  predicate ShortGaps(gap: nat, delivered: seq<bool>)
    decreases delivered
  {
    if delivered == [] then true
    else if delivered[0] then gap < 0x1_0000 && ShortGaps(0, delivered[1..])
    else ShortGaps(gap + 1, delivered[1..])
  }

  /** What should become of frame `i`. */
  function Deserved(gap: nat, plain: seq<Bytes>, delivered: seq<bool>, i: nat): Fate
    requires i < |plain| == |delivered|
  {
    if !delivered[i] then Lost
    else if (if i == 0 then gap == 0 else delivered[i - 1]) then Got(Plain(plain[i]))
    else Got(Dropped)
  }

  lemma {:induction false} StreamFates(c: Cipher, x: End, r: End, gap: nat,
                                       plain: seq<Bytes>, delivered: seq<bool>, i: nat)
    requires Sound(c) && i < |plain| == |delivered|
    requires forall k | 0 <= k < |plain| :: plain[k] != []
    requires ShortGaps(gap, delivered)
    requires (r.seqNo + gap) % 0x1_0000 == x.seqNo && (gap == 0 ==> r == x)
    ensures Stream(c, x, r, plain, delivered)[i] == Deserved(gap, plain, delivered, i)
    decreases plain
  {
    hide Frame, Sent, Receive;
    var x' := Sent(c, x, plain[0]);
    FrameReceived(c, x, r, plain[0]);
    NextNumber(c, x, plain[0]);
    if delivered[0] {
      var (got, r') := Receive(c, r, Frame(c, x, plain[0]));
      SmallGap(r.seqNo, gap, x.seqNo);
      if i > 0 {
        StreamFates(c, x', r', 0, plain[1..], delivered[1..], i - 1);
      }
    } else if i > 0 {
      assert (r.seqNo + (gap + 1)) % 0x1_0000 == x'.seqNo;
      StreamFates(c, x', r, gap + 1, plain[1..], delivered[1..], i - 1);
    }
  }

  lemma NextNumber(c: Cipher, x: End, p: Bytes)
    ensures Sent(c, x, p).seqNo == (x.seqNo + 1) % 0x1_0000
  {
  }

  lemma SmallGap(n: Word, gap: nat, m: Word)
    requires (n + gap) % 0x1_0000 == m && gap < 0x1_0000
    ensures n == m <==> gap == 0
  {
  }

  /** From agreeing ends, with fewer than 65536 losses in a row, a delivered frame yields exactly its
      plaintext if its predecessor was delivered, and is dropped otherwise. */
  lemma LossyStream(c: Cipher, x: End, plain: seq<Bytes>, delivered: seq<bool>, i: nat)
    requires Sound(c) && i < |plain| == |delivered|
    requires forall k | 0 <= k < |plain| :: plain[k] != []
    requires ShortGaps(0, delivered)
    ensures Stream(c, x, x, plain, delivered)[i] ==
            if !delivered[i] then Lost
            else if i == 0 || delivered[i - 1] then Got(Plain(plain[i]))
            else Got(Dropped)
  {
    hide Stream;
    StreamFates(c, x, x, 0, plain, delivered, i);
  }

  // ---- Gaps of any length ----

  /** The sender after these frames. */
  function SentAll(c: Cipher, x: End, plain: seq<Bytes>): End
    decreases plain
  {
    if plain == [] then x else SentAll(c, Sent(c, x, plain[0]), plain[1..])
  }

  lemma {:induction false} NumberAfter(c: Cipher, x: End, plain: seq<Bytes>)
    ensures SentAll(c, x, plain).seqNo == (x.seqNo + |plain|) % 0x1_0000
    decreases plain
  {
    hide Sent;
    if plain != [] {
      NextNumber(c, x, plain[0]);
      NumberAfter(c, Sent(c, x, plain[0]), plain[1..]);
    }
  }

  /** Frame `i` arrives after `g` losses, which follow a delivery or the start. */
  predicate AfterGap(delivered: seq<bool>, i: nat, g: nat) {
    && g <= i < |delivered| && delivered[i]
    && (forall j | i - g <= j < i :: !delivered[j])
    && (g < i ==> delivered[i - g - 1])
  }

  /** The receiver meets such a frame in the state the sender was in before the gap. */
  lemma {:induction false} StreamAt(c: Cipher, x: End, r: End, plain: seq<Bytes>, delivered: seq<bool>, i: nat, g: nat)
    requires Sound(c) && |plain| == |delivered| && AfterGap(delivered, i, g)
    requires forall k | 0 <= k < |plain| :: plain[k] != []
    ensures var stale := if g == i then r else SentAll(c, x, plain[..i - g]);
      Stream(c, x, r, plain, delivered)[i] == Got(Receive(c, stale, Frame(c, SentAll(c, x, plain[..i]), plain[i])).0)
    decreases plain
  {
    hide Frame, Sent, Receive;
    if i == 0 {
      assert plain[..0] == [];
    } else {
      var x' := Sent(c, x, plain[0]);
      FrameReceived(c, x, r, plain[0]);
      var r' := if delivered[0] then Receive(c, r, Frame(c, x, plain[0])).1 else r;
      var g' := if g == i then g - 1 else g;
      assert AfterGap(delivered[1..], i - 1, g');
      StreamAt(c, x', r', plain[1..], delivered[1..], i - 1, g');
      assert plain[..i][0] == plain[0] && plain[..i][1..] == plain[1..][..i - 1];
      if g < i {
        assert plain[..i - g][0] == plain[0] && plain[..i - g][1..] == plain[1..][..i - 1 - g];
        assert g == i - 1 ==> delivered[0] && plain[1..][..0] == [];
      }
    }
  }

  /** Two chaining values serve equally well for this plaintext: they agree where the first block holds
      plaintext, and where it ends. */
  predicate Alike(a: Block, b: Block, p: Bytes) {
    forall i | 0 <= i < 8 && (i < |p| || i == 7) :: a[i] == b[i]
  }

  /** What becomes of a frame that arrives after any number of losses: it is dropped unless their number
      is a multiple of 65536, and then it comes out right only if the chaining value of before the gap
      happens to do. */
  lemma FrameAfterGap(c: Cipher, x: End, plain: seq<Bytes>, delivered: seq<bool>, i: nat, g: nat)
    requires Sound(c) && |plain| == |delivered| && AfterGap(delivered, i, g)
    requires forall k | 0 <= k < |plain| :: plain[k] != []
    ensures var fate := Stream(c, x, x, plain, delivered)[i];
      && fate.Got?
      && (fate.r.Dropped? <==> g % 0x1_0000 != 0)
      && (fate == Got(Plain(plain[i])) <==>
            g % 0x1_0000 == 0
            && Alike(SentAll(c, x, plain[..i - g]).iv, SentAll(c, x, plain[..i]).iv, plain[i]))
  {
    hide Stream, Receive, Frame, SentAll, Alike;
    StreamAt(c, x, x, plain, delivered, i, g);
    assert SentAll(c, x, plain[..0]) == x by { NothingSent(c, x, plain); }
    var stale, s := SentAll(c, x, plain[..i - g]), SentAll(c, x, plain[..i]);
    NumberAfter(c, x, plain[..i - g]);
    NumberAfter(c, x, plain[..i]);
    SameResidue(x.seqNo, i - g, i);
    FrameReceived(c, s, stale, plain[i]);
    if g % 0x1_0000 == 0 {
      StaleChaining(c, s, stale, plain[i]);
    }
  }

  lemma NothingSent(c: Cipher, x: End, plain: seq<Bytes>)
    ensures SentAll(c, x, plain[..0]) == x
  {
  }

  lemma SameResidue(n: nat, j: nat, i: nat)
    requires j <= i
    ensures (n + j) % 0x1_0000 == (n + i) % 0x1_0000 <==> (i - j) % 0x1_0000 == 0
  {
  }

  /** A frame with the number expected comes out right exactly if the chaining values are alike. */
  lemma StaleChaining(c: Cipher, x: End, r: End, p: Bytes)
    requires Sound(c) && p != [] && r.seqNo == x.seqNo
    ensures Receive(c, r, Frame(c, x, p)).0 == Plain(p) <==> Alike(r.iv, x.iv, p)
  {
    hide Encrypt, Decrypt, Padded, Stripped, Header, Number, Alike;
    var q := Encrypt(c, x.iv, Padded(p, x.seqNo));
    StripPadded(p, x.seqNo);
    HeaderReads(x.seqNo);
    assert Frame(c, x, p)[2..] == q;
    DecryptEncrypt(c, x.iv, Padded(p, x.seqNo));
    var d := DecryptsAlike(c, r.iv, x.iv, q);
    StrippedAlike(d, r.iv, x.iv, p, x.seqNo, Decrypt(c, r.iv, q));
  }

  /** Decryptions under two chaining values differ in the first block only, as the values do. */
  lemma DecryptsAlike(c: Cipher, a: Block, b: Block, q: Bytes) returns (d: Block)
    requires |q| % 8 == 0 && q != []
    ensures Decrypt(c, a, q)[..8] == Xor(d, a) && Decrypt(c, b, q)[..8] == Xor(d, b)
    ensures Decrypt(c, a, q)[8..] == Decrypt(c, b, q)[8..]
  {
    hide Xor;
    d := c.dec(q[..8]);
  }

  lemma StrippedAlike(d: Block, a: Block, b: Block, p: Bytes, n: Word, q: Bytes)
    requires p != [] && |q| == |Padded(p, n)| >= 8 && q[..8] == Xor(d, a)
    requires Padded(p, n)[..8] == Xor(d, b) && q[8..] == Padded(p, n)[8..]
    ensures Stripped(q) == p <==> Alike(a, b, p)
  {
    hide Padded, Xor;
    var w := Padded(p, n);
    StripPadded(p, n);
    PaddedShape(p, n);
    forall i | 0 <= i < 8 ensures q[i] == w[i] <==> a[i] == b[i] {
      assert q[i] == q[..8][i] && w[i] == w[..8][i];
      XorAt(d, a, b, i);
    }
    assert forall i | 8 <= i < |q| :: q[i] == q[8..][i - 8] && w[i] == w[8..][i - 8];
    StripSame(q, w, p);
  }

  lemma PaddedShape(p: Bytes, n: Word)
    ensures var w := Padded(p, n); p <= w && |w| <= |p| + 8 && (|p| >= 8 || |w| <= 8)
  {
  }

  lemma XorAt(d: Block, a: Block, b: Block, i: nat)
    requires i < 8
    ensures Xor(d, a)[i] == Xor(d, b)[i] <==> a[i] == b[i]
  {
    hide Xor, Mix;
    MixInjective(d[i], a[i], b[i]);
  }

  /** A block list that differs from a padded plaintext in the first block strips to the plaintext just
      if it has it, and the same last byte. */
  lemma StripSame(q: Bytes, w: Bytes, p: Bytes)
    requires |q| == |w| >= 8 && Stripped(w) == p && p != [] && p <= w
    requires forall i | 8 <= i < |q| :: q[i] == w[i]
    requires |p| >= 8 || |w| == 8
    ensures Stripped(q) == p <==> forall i | 0 <= i < 8 && (i < |p| || i == 7) :: q[i] == w[i]
  {
    if Stripped(q) == p {
      forall i | 0 <= i < 8 && (i < |p| || i == 7) ensures q[i] == w[i] {
        if i < |p| {
          assert q[i] == p[i] == w[i];
        } else {
          assert |q| == 8 && |p| < 8;
        }
      }
    }
  }

  // ---- Where the hypotheses are needed ----

  lemma EmptyPadded(n: Word)
    ensures if 1 <= n % 256 <= 8 then |Padded([], n)| == 8 && Stripped(Padded([], n)) == []
            else Padded([], n) == []
  {
    hide Padding;
    var q := Padding(PadLength(0, n % 256));
    assert Padded([], n) == q;
    if 1 <= n % 256 <= 8 {
      assert q[7] as int == 8;
      assert q[..0] == [];
    }
  }

  /** An empty plaintext is padded according to the header byte in front of it, so it gets through
      exactly when the low byte of the sequence number is between 1 and 8. */
  lemma EmptyPlaintext(c: Cipher, x: End)
    requires Sound(c)
    ensures Receive(c, x, Frame(c, x, [])).0
            == if 1 <= x.seqNo % 256 <= 8 then Plain([]) else Bogus
  {
    hide Encrypt, Decrypt, Header, Number, Padding, Padded, Stripped;
    EmptyPadded(x.seqNo);
    HeaderReads(x.seqNo);
    var p := Padded([], x.seqNo);
    DecryptEncrypt(c, x.iv, p);
    assert Frame(c, x, [])[2..] == Encrypt(c, x.iv, p);
  }

  /** The payload size promised for a given frame size. */
  function SubtractBloat(size: int): int { (size - 2) / 8 * 8 - 1 }

  lemma PayloadFits(c: Cipher, x: End, p: Bytes, size: int)
    requires |p| <= SubtractBloat(size)
    ensures |Frame(c, x, p)| <= size
  {
    hide Encrypt, Padding, SubtractBloat;
    Bloat(|p|, LastByte(p, x.seqNo), size);
  }

  /** The payload announced is the most that is sure to fit: one byte more does not if it needs a whole
      block of padding. */
  lemma PayloadExactly(c: Cipher, x: End, n: nat, size: nat)
    requires size >= 2 && n > 0
    ensures n <= SubtractBloat(size) <==> forall p: Bytes | |p| == n :: |Frame(c, x, p)| <= size
  {
    hide Encrypt, Padding, SubtractBloat;
    if n <= SubtractBloat(size) {
      forall p: Bytes | |p| == n ensures |Frame(c, x, p)| <= size {
        PayloadFits(c, x, p, size);
      }
    } else {
      var p := Ones(n);
      assert LastByte(p, x.seqNo) == 1;
      TooMuch(n, size);
      assert |Frame(c, x, p)| == 2 + n + PadLength(n, 1);
    }
  }

  function Ones(n: nat): (p: Bytes)
    ensures |p| == n && forall i | 0 <= i < n :: p[i] as int == 1
  {
    seq(n, _ => 1)
  }

  lemma TooMuch(n: nat, size: nat)
    requires size >= 2 && n > SubtractBloat(size)
    ensures 2 + n + PadLength(n, 1) > size
  {
    var k, j := (size - 2) / 8, n / 8;
    assert n == 8 * j + n % 8;
    assert j >= k;
  }

  lemma Bloat(n: nat, last: int, size: int)
    requires n <= SubtractBloat(size)
    ensures 2 + n + PadLength(n, last) <= size
  {
    var k, j := (size - 2) / 8, n / 8;
    assert n == 8 * j + n % 8;
    assert j < k;
  }
}
