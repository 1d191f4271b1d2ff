/** Encoding and decoding of L2TP attribute-value pairs, with the hiding of section 4.3 of RFC 2661.
    The hash is any function from byte strings to 16 bytes. */
module L2tpAvp {
  import opened Buffers

  type Digest = d: Bytes | |d| == 16 witness seq(16, _ => 0)
  type Hash = Bytes -> Digest
  type Word = n: int | 0 <= n < 0x1_0000

  const RANDOM_VECTOR: Word := 36
  const MAX_VLEN := 1017

  datatype Option<+T> = None | Some(value: T)

  /** How an attribute may be transmitted. */
  datatype Info = Info(vendor: Word, kind: Word, hiddenOk: bool, minLength: int, maxLength: int)

  datatype Avp = Avp(mandatory: bool, vendor: Word, kind: Word, value: Bytes)

  datatype Error = Malformed | UnknownMandatory | NoSecret

  datatype Result = Ok(avps: seq<Avp>) | Err(error: Error)

  function Find(info: seq<Info>, vendor: Word, kind: Word): Option<Info> {
    if info == [] then None
    else if info[0].vendor == vendor && info[0].kind == kind then Some(info[0])
    else Find(info[1..], vendor, kind)
  }

  // ---- Numbers and headers ----

  function U16(n: Word): (b: Bytes)
    ensures |b| == 2
  {
    [(n / 256) as bv8, (n % 256) as bv8]
  }

  function FromU16(hi: Byte, lo: Byte): Word { (hi as int) * 256 + lo as int }

  lemma U16RoundTrip(n: Word)
    ensures FromU16(U16(n)[0], U16(n)[1]) == n
  {
    ByteKeeps(n / 256);
    ByteKeeps(n % 256);
  }

  const MANDATORY := 0x8000
  const HIDDEN := 0x4000

  /** The flag bits lie above the length, so setting them is adding them. */
  function Flags(mandatory: bool, hidden: bool, length: int): Word
    requires 0 <= length < 0x4000
  {
    (if mandatory then MANDATORY else 0) + (if hidden then HIDDEN else 0) + length
  }

  lemma FlagsRead(mandatory: bool, hidden: bool, length: int)
    requires 0 <= length < 0x400
    ensures var flags := Flags(mandatory, hidden, length);
      flags % 0x400 == length && flags / 0x400 % 16 == 0 && flags / HIDDEN % 2 == if hidden then 1 else 0
  {
  }

  function Header(flags: Word, vendor: Word, kind: Word): (b: Bytes)
    ensures |b| == 6
  {
    U16(flags) + U16(vendor) + U16(kind)
  }

  // ---- Hiding ----

  function Xor(p: Bytes, key: Digest): (c: Bytes)
    requires |p| <= 16
    ensures |c| == |p|
  {
    seq(|p|, i requires 0 <= i < |p| => p[i] ^ key[i])
  }

  /** Each further block is hidden under the hash of the secret and the previous hidden block. */
  function Hide(md5: Hash, secret: Bytes, key: Digest, p: Bytes): (c: Bytes)
    ensures |c| == |p|
    decreases p
  {
    if |p| <= 16 then Xor(p, key)
    else
      var c := Xor(p[..16], key);
      c + Hide(md5, secret, md5(secret + c), p[16..])
  }

  function Unhide(md5: Hash, secret: Bytes, key: Digest, c: Bytes): (p: Bytes)
    ensures |p| == |c|
    decreases c
  {
    if |c| <= 16 then Xor(c, key)
    else Xor(c[..16], key) + Unhide(md5, secret, md5(secret + c[..16]), c[16..])
  }

  function FirstKey(md5: Hash, kind: Word, secret: Bytes, randvec: Bytes): Digest {
    md5(U16(kind) + secret + randvec)
  }

  /** Unhiding undoes hiding, whatever padding follows the hidden bytes. */
  lemma {:induction false} UnhideHide(md5: Hash, secret: Bytes, key: Digest, p: Bytes, pad: Bytes)
    ensures Unhide(md5, secret, key, Hide(md5, secret, key, p) + pad)[..|p|] == p
    decreases p
  {
    var c := Hide(md5, secret, key, p) + pad;
    if |p| <= 16 {
      var n := if |c| <= 16 then |c| else 16;
      assert c[..n][..|p|] == Xor(p, key);
      assert Unhide(md5, secret, key, c)[..n] == Xor(c[..n], key);
      assert forall i | 0 <= i < |p| :: (p[i] ^ key[i]) ^ key[i] == p[i];
      assert Xor(c[..n], key)[..|p|] == p;
      assert Unhide(md5, secret, key, c)[..|p|] == Unhide(md5, secret, key, c)[..n][..|p|];
    } else {
      var c0 := Xor(p[..16], key);
      assert c[..16] == c0;
      assert c[16..] == Hide(md5, secret, md5(secret + c0), p[16..]) + pad;
      UnhideHide(md5, secret, md5(secret + c0), p[16..], pad);
      assert forall i | 0 <= i < 16 :: (p[i] ^ key[i]) ^ key[i] == p[i];
      assert Xor(c0, key) == p[..16];
      assert p == p[..16] + p[16..];
    }
  }

  // ---- Packing ----

  function PadLength(vlen: int): int
    requires 0 <= vlen
  {
    7 - vlen % 8
  }

  /** What decides the form of a packet: the attribute table, the secret if any, and the random
      vector drawn for this packet. */
  datatype Context = Context(md5: Hash, info: seq<Info>, secret: Option<Bytes>, randvec: Bytes)

  /** The attribute is described and its value is within limits. */
  predicate Packable(x: Context, a: Avp) {
    var d := Find(x.info, a.vendor, a.kind);
    d.Some? && d.value.minLength <= |a.value| <= d.value.maxLength && |a.value| <= MAX_VLEN
  }

  predicate Hides(x: Context, a: Avp) {
    var d := Find(x.info, a.vendor, a.kind);
    x.secret.Some? && d.Some? && d.value.hiddenOk
  }

  function RandVecAvp(x: Context): (b: Bytes)
    requires |x.randvec| == 4
    ensures |b| == 10
  {
    Header(MANDATORY + 10, 0, RANDOM_VECTOR) + x.randvec
  }

  function AvpLength(x: Context, a: Avp): nat {
    if Hides(x, a) then 8 + |a.value| + PadLength(|a.value|) else 6 + |a.value|
  }

  /** The bytes of one attribute, up to its padding. */
  function Body(x: Context, a: Avp): (b: Bytes)
    requires Packable(x, a)
    ensures |b| <= AvpLength(x, a)
  {
    var head := Header(Flags(a.mandatory, Hides(x, a), AvpLength(x, a)), a.vendor, a.kind);
    if Hides(x, a) then
      var secret := x.secret.value;
      head + Hide(x.md5, secret, FirstKey(x.md5, a.kind, secret, x.randvec), U16(|a.value|) + a.value)
    else head + a.value
  }

  /** The random vector goes before the first attribute that is hidden. */
  function Prefix(x: Context, a: Avp, sent: bool): Bytes
    requires |x.randvec| == 4
  {
    if Hides(x, a) && !sent then RandVecAvp(x) else []
  }

  function OneLength(x: Context, a: Avp, sent: bool): nat {
    (if Hides(x, a) && !sent then 10 else 0) + AvpLength(x, a)
  }

  function PackedLength(x: Context, avps: seq<Avp>, sent: bool): nat {
    if avps == [] then 0
    else OneLength(x, avps[0], sent) + PackedLength(x, avps[1..], sent || Hides(x, avps[0]))
  }

  /** `b` begins with an attribute.  The padding bytes are whatever the buffer held. */
  predicate PacksOne(x: Context, a: Avp, sent: bool, b: Bytes)
    requires |x.randvec| == 4
  {
    Packable(x, a) && |b| >= OneLength(x, a, sent) && Prefix(x, a, sent) + Body(x, a) <= b
  }

  /** `b` is the packed form of the attributes. */
  predicate Packs(x: Context, avps: seq<Avp>, sent: bool, b: Bytes)
    requires |x.randvec| == 4
  {
    if avps == [] then b == []
    else
      && PacksOne(x, avps[0], sent, b)
      && Packs(x, avps[1..], sent || Hides(x, avps[0]), b[OneLength(x, avps[0], sent)..])
  }

  // ---- Unpacking ----

  function Cons(a: Avp, r: Result): Result {
    if r.Ok? then Ok([a] + r.avps) else r
  }

  /** The plain value of a hidden attribute, if its length field makes sense. */
  function Revealed(md5: Hash, secret: Bytes, kind: Word, randvec: Bytes, c: Bytes): Option<Bytes> {
    if |c| < 2 then None
    else
      var p := Unhide(md5, secret, FirstKey(md5, kind, secret, randvec), c);
      var olen := (FromU16(p[0], p[1]) + 6) % 0x1_0000;
      if olen < 6 || olen > |c| + 4 then None else Some(p[2..olen - 4])
  }

  /** One attribute of a packet: an error, nothing, a random vector, or a value. */
  datatype Item = Bad(error: Error) | Skip | Vector(bytes: Bytes) | Value(avp: Avp)

  /** What the attribute with these header words and contents amounts to. */
  function Interpret(x: Context, flags: Word, vendor: Word, kind: Word, body: Bytes,
                     randvec: Option<Bytes>): Item
  {
    if flags / 0x400 % 16 != 0 || Find(x.info, vendor, kind).None? then
      if flags >= MANDATORY then Bad(UnknownMandatory) else Skip
    else if vendor == 0 && kind == RANDOM_VECTOR then Vector(body)
    else if flags / HIDDEN % 2 == 0 then Value(Avp(flags >= MANDATORY, vendor, kind, body))
    else if randvec.None? then Bad(Malformed)
    else if x.secret.None? then Bad(NoSecret)
    else
      var value := Revealed(x.md5, x.secret.value, kind, randvec.value, body);
      if value.None? then Bad(Malformed)
      else Value(Avp(flags >= MANDATORY, vendor, kind, value.value))
  }

  /** The word at position `i`. */
  function WordAt(data: Bytes, i: nat): Word
    requires i + 2 <= |data|
  {
    FromU16(data[i], data[i + 1])
  }

  /** The attribute at the head of a packet, and its length. */
  function Read(x: Context, data: Bytes, randvec: Option<Bytes>): (r: (Item, nat))
    ensures !r.0.Bad? ==> 6 <= r.1 <= |data|
  {
    if |data| < 6 then (Bad(Malformed), 0)
    else
      var length := WordAt(data, 0) % 0x400;
      if length < 6 || length > |data| then (Bad(Malformed), 0)
      else
        (Interpret(x, WordAt(data, 0), WordAt(data, 2), WordAt(data, 4), data[6..length], randvec),
         length)
  }

  /** The meaning of a packet.  `randvec` is the last random vector seen. */
  function Unpack(x: Context, data: Bytes, randvec: Option<Bytes>): Result
    decreases |data|
  {
    if data == [] then Ok([])
    else
      var (item, n) := Read(x, data, randvec);
      match item
      case Bad(e) => Err(e)
      case Skip => Unpack(x, data[n..], randvec)
      case Vector(bytes) => Unpack(x, data[n..], Some(bytes))
      case Value(a) => Cons(a, Unpack(x, data[n..], randvec))
  }

  // ---- Round trip ----

  /** The limit the length field puts on a hidden attribute. */
  predicate Fits(x: Context, a: Avp) { Hides(x, a) ==> |a.value| <= 1015 }

  predicate Ordinary(a: Avp) { !(a.vendor == 0 && a.kind == RANDOM_VECTOR) }

  /** The attribute survives the trip: it is not itself a random vector, it fits the length field,
      and if it is hidden the receiver's table describes random vectors. */
  predicate Portable(x: Context, a: Avp) {
    && Ordinary(a)
    && Fits(x, a)
    && (Hides(x, a) ==> Find(x.info, 0, RANDOM_VECTOR).Some?)
  }

  lemma FitsIffShort(x: Context, a: Avp)
    requires Packable(x, a)
    ensures Fits(x, a) <==> AvpLength(x, a) < 0x400
    ensures AvpLength(x, a) <= 1031
    ensures Hides(x, a) ==> x.secret.Some?
  {
  }

  /** Reading back a header. */
  lemma HeaderReads(flags: Word, vendor: Word, kind: Word, data: Bytes)
    requires Header(flags, vendor, kind) <= data
    ensures WordAt(data, 0) == flags && WordAt(data, 2) == vendor && WordAt(data, 4) == kind
  {
    hide U16, FromU16;
    U16RoundTrip(flags);
    U16RoundTrip(vendor);
    U16RoundTrip(kind);
    var h := Header(flags, vendor, kind);
    assert data[..6] == h;
    assert forall i | 0 <= i < 6 :: data[i] == data[..6][i];
  }

  lemma RandVecReads(x: Context, data: Bytes, randvec: Option<Bytes>)
    requires |x.randvec| == 4 && RandVecAvp(x) <= data
    requires Find(x.info, 0, RANDOM_VECTOR).Some?
    ensures Read(x, data, randvec) == (Vector(x.randvec), 10)
  {
    hide WordAt;
    var b := RandVecAvp(x);
    assert data[..10] == b && data[..6] == b[..6];
    HeaderReads(MANDATORY + 10, 0, RANDOM_VECTOR, data) by { hide *; }
    assert data[6..10] == b[6..10] == x.randvec;
  }

  /** One attribute reads back as itself. */
  lemma AvpReads(x: Context, a: Avp, data: Bytes, randvec: Option<Bytes>)
    requires Packable(x, a) && Fits(x, a) && Ordinary(a)
    requires |data| >= AvpLength(x, a) && Body(x, a) <= data
    requires Hides(x, a) ==> randvec == Some(x.randvec)
    ensures Read(x, data, randvec) == (Value(a), AvpLength(x, a))
  {
    hide WordAt, Header, Revealed, Hide, FirstKey, U16;
    var n := AvpLength(x, a);
    var flags := Flags(a.mandatory, Hides(x, a), n);
    var body := Body(x, a);
    assert data[..|body|] == body && body[..6] == Header(flags, a.vendor, a.kind);
    assert data[..6] == body[..6];
    HeaderReads(flags, a.vendor, a.kind, data);
    FitsIffShort(x, a);
    FlagsRead(a.mandatory, Hides(x, a), n);
    if Hides(x, a) {
      assert data[6..n] == body[6..] + data[|body|..n];
      RevealedReads(x, a, data[6..n]);
    } else {
      assert data[6..n] == body[6..] == a.value;
    }
  }

  lemma RevealedReads(x: Context, a: Avp, c: Bytes)
    requires Packable(x, a) && Hides(x, a)
    requires |c| == AvpLength(x, a) - 6 && Body(x, a)[6..] <= c
    ensures Revealed(x.md5, x.secret.value, a.kind, x.randvec, c) == Some(a.value)
  {
    hide U16, FromU16, Hide, Unhide, FirstKey, Header;
    var secret := x.secret.value;
    var key := FirstKey(x.md5, a.kind, secret, x.randvec);
    var p := U16(|a.value|) + a.value;
    var hid := Hide(x.md5, secret, key, p);
    assert Body(x, a)[6..] == hid;
    assert c == hid + c[|hid|..];
    UnhideHide(x.md5, secret, key, p, c[|hid|..]);
    var q := Unhide(x.md5, secret, key, c);
    assert q[..|p|] == p;
    assert q[0] == q[..|p|][0] && q[1] == q[..|p|][1];
    U16RoundTrip(|a.value|);
    assert q[2..2 + |a.value|] == q[..|p|][2..] == a.value;
  }

  /** Unpacking takes the first attribute off, and with it a random vector if one was due. */
  lemma HeadUnpacks(x: Context, a: Avp, sent: bool, b: Bytes, randvec: Option<Bytes>)
    requires |x.randvec| == 4 && PacksOne(x, a, sent, b) && Portable(x, a)
    requires sent ==> randvec == Some(x.randvec)
    ensures OneLength(x, a, sent) <= |b|
    ensures var rest := b[OneLength(x, a, sent)..];
            var rv := if sent || Hides(x, a) then Some(x.randvec) else randvec;
            Unpack(x, b, randvec) == Cons(a, Unpack(x, rest, rv))
  {
    hide Body, Read, RandVecAvp, Fits, Ordinary, Packable, Hides, AvpLength, Unpack;
    var prefix, body := Prefix(x, a, sent), Body(x, a);
    assert b[..|prefix| + |body|] == prefix + body;
    var b1 := b[|prefix|..];
    var rv := if sent || Hides(x, a) then Some(x.randvec) else randvec;
    assert prefix <= b && body <= b1;
    AvpReads(x, a, b1, rv);
    var n := AvpLength(x, a);
    assert b1[n..] == b[|prefix| + n..];
    UnpackReads(x, b1, rv);
    if Hides(x, a) && !sent {
      RandVecReads(x, b, randvec);
      UnpackReads(x, b, randvec);
    } else {
      assert b1 == b;
    }
  }

  lemma UnpackReads(x: Context, data: Bytes, randvec: Option<Bytes>)
    requires Read(x, data, randvec).0.Vector? || Read(x, data, randvec).0.Value?
    ensures var (item, n) := Read(x, data, randvec);
            Unpack(x, data, randvec) ==
            if item.Vector? then Unpack(x, data[n..], Some(item.bytes))
            else Cons(item.avp, Unpack(x, data[n..], randvec))
  {
    hide Read;
    assert data != [] by { ReadEmpty(x, randvec); }
  }

  lemma ReadEmpty(x: Context, randvec: Option<Bytes>)
    ensures Read(x, [], randvec).0.Bad?
  {}

  /** Unpacking gives back the packed attributes, in order, with mandatory bits and values intact,
      for any hash, secret, random vector and padding. */
  lemma {:induction false} RoundTrip(x: Context, avps: seq<Avp>, sent: bool, b: Bytes, randvec: Option<Bytes>)
    requires |x.randvec| == 4 && Packs(x, avps, sent, b)
    requires forall i | 0 <= i < |avps| :: Portable(x, avps[i])
    requires sent ==> randvec == Some(x.randvec)
    ensures Unpack(x, b, randvec) == Ok(avps)
    ensures |b| == PackedLength(x, avps, sent)
    decreases avps
  {
    hide PacksOne, Portable, Hides, OneLength, Unpack;
    if avps == [] {
      UnpackNothing(x, randvec);
    } else {
      var a := avps[0];
      HeadUnpacks(x, a, sent, b, randvec);
      var n := OneLength(x, a, sent);
      var sent' := sent || Hides(x, a);
      RoundTrip(x, avps[1..], sent', b[n..], if sent' then Some(x.randvec) else randvec);
      assert avps == [a] + avps[1..];
    }
  }

  lemma UnpackNothing(x: Context, randvec: Option<Bytes>)
    ensures Unpack(x, [], randvec) == Ok([])
  {}

  // ---- Attributes too long for the length field ----

  /** A hidden attribute too long for the length field spills into the reserved bits. If it is mandatory
      the receiver gives up on it; if not, what is left in the field reads as a length of 7. */
  lemma OversizeReads(x: Context, a: Avp, data: Bytes, randvec: Option<Bytes>)
    requires Packable(x, a) && !Fits(x, a)
    requires |data| >= AvpLength(x, a) && Body(x, a) <= data
    ensures |data| > 7
    ensures Read(x, data, randvec) == (if a.mandatory then Bad(UnknownMandatory) else Skip, 7)
  {
    hide WordAt, Header, Hide, FirstKey, U16, Interpret;
    var flags := Flags(a.mandatory, true, 1031);
    var body := Body(x, a);
    assert AvpLength(x, a) == 1031;
    assert data[..|body|] == body && body[..6] == Header(flags, a.vendor, a.kind);
    assert data[..6] == body[..6];
    HeaderReads(flags, a.vendor, a.kind, data);
    OversizeFlags(x, a.mandatory, a.vendor, a.kind, data[6..7], randvec);
  }

  lemma OversizeFlags(x: Context, mandatory: bool, vendor: Word, kind: Word, body: Bytes, randvec: Option<Bytes>)
    ensures Flags(mandatory, true, 1031) % 0x400 == 7
    ensures Interpret(x, Flags(mandatory, true, 1031), vendor, kind, body, randvec)
         == if mandatory then Bad(UnknownMandatory) else Skip
  {
    hide Revealed;
  }

  /** So the receiver goes on seven bytes in, and takes hidden bytes for attributes. */
  lemma OversizeUnpacks(x: Context, a: Avp, sent: bool, b: Bytes, randvec: Option<Bytes>)
    requires |x.randvec| == 4 && PacksOne(x, a, sent, b) && !Fits(x, a)
    requires Find(x.info, 0, RANDOM_VECTOR).Some?
    requires sent ==> randvec == Some(x.randvec)
    ensures |b| >= |Prefix(x, a, sent)| + 7
    ensures Unpack(x, b, randvec) ==
      if a.mandatory then Err(UnknownMandatory)
      else Unpack(x, b[|Prefix(x, a, sent)| + 7..], Some(x.randvec))
  {
    hide Body, Read, RandVecAvp, Packable, Hides, AvpLength, Unpack;
    var prefix, body := Prefix(x, a, sent), Body(x, a);
    assert b[..|prefix| + |body|] == prefix + body;
    var b1 := b[|prefix|..];
    assert prefix <= b && body <= b1;
    assert Hides(x, a);
    OversizeReads(x, a, b1, Some(x.randvec));
    PassesOver(x, b1, Some(x.randvec));
    assert b1[7..] == b[|prefix| + 7..];
    if !sent {
      RandVecReads(x, b, randvec);
      UnpackReads(x, b, randvec);
    } else {
      assert b1 == b;
    }
  }

  lemma PassesOver(x: Context, data: Bytes, randvec: Option<Bytes>)
    requires data != [] && (Read(x, data, randvec).0.Bad? || Read(x, data, randvec).0.Skip?)
    ensures var (item, n) := Read(x, data, randvec);
      Unpack(x, data, randvec) == if item.Bad? then Err(item.error) else Unpack(x, data[n..], randvec)
  {
    hide Read;
  }

  /** The first attribute too long for the length field. */
  function FirstOversize(x: Context, avps: seq<Avp>): (k: nat)
    ensures k <= |avps| && forall i | 0 <= i < k :: Fits(x, avps[i])
    ensures k < |avps| ==> !Fits(x, avps[k])
  {
    if avps == [] || !Fits(x, avps[0]) then 0 else 1 + FirstOversize(x, avps[1..])
  }

  /** A packet from the eighth byte of its first oversize attribute on. */
  function Spill(x: Context, avps: seq<Avp>, sent: bool, b: Bytes): Bytes
    requires |x.randvec| == 4 && Packs(x, avps, sent, b)
    decreases avps
  {
    if avps == [] then []
    else if Fits(x, avps[0]) then
      Spill(x, avps[1..], sent || Hides(x, avps[0]), b[OneLength(x, avps[0], sent)..])
    else
      var n := |Prefix(x, avps[0], sent)| + 7;
      if n <= |b| then b[n..] else []
  }

  function Prepend(avps: seq<Avp>, r: Result): Result {
    if r.Ok? then Ok(avps + r.avps) else r
  }

  /** What a packet means to its receiver, whatever was packed. */
  lemma {:induction false} PackedMeans(x: Context, avps: seq<Avp>, sent: bool, b: Bytes, randvec: Option<Bytes>)
    requires |x.randvec| == 4 && Packs(x, avps, sent, b)
    requires forall i | 0 <= i < |avps| :: Ordinary(avps[i])
    requires Find(x.info, 0, RANDOM_VECTOR).Some?
    requires sent ==> randvec == Some(x.randvec)
    ensures var k := FirstOversize(x, avps);
      Unpack(x, b, randvec) ==
        if k == |avps| then Ok(avps)
        else if avps[k].mandatory then Err(UnknownMandatory)
        else Prepend(avps[..k], Unpack(x, Spill(x, avps, sent, b), Some(x.randvec)))
    decreases avps
  {
    hide PacksOne, Hides, OneLength, Unpack, Fits, Ordinary, Prefix;
    assert avps != [] ==> avps == [avps[0]] + avps[1..];
    if avps == [] {
      UnpackNothing(x, randvec);
    } else if !Fits(x, avps[0]) {
      OversizeUnpacks(x, avps[0], sent, b, randvec);
      assert avps[..0] == [];
      PrependNothing(Unpack(x, Spill(x, avps, sent, b), Some(x.randvec)));
    } else {
      var a, rest := avps[0], avps[1..];
      HeadUnpacks(x, a, sent, b, randvec);
      var n := OneLength(x, a, sent);
      var sent' := sent || Hides(x, a);
      PackedMeans(x, rest, sent', b[n..], if sent' then Some(x.randvec) else randvec);
      var k := FirstOversize(x, rest);
      OneMoreMeans(a, rest, k, Unpack(x, Spill(x, avps, sent, b), Some(x.randvec)));
    }
  }

  lemma OneMoreMeans(a: Avp, rest: seq<Avp>, k: nat, r: Result)
    requires k <= |rest|
    ensures ([a] + rest)[..k + 1] == [a] + rest[..k] && (k < |rest| ==> ([a] + rest)[k + 1] == rest[k])
    ensures Cons(a, Ok(rest)) == Ok([a] + rest) && Cons(a, Prepend(rest[..k], r)) == Prepend([a] + rest[..k], r)
  {
    PrependCons(a, rest[..k], r);
  }

  lemma PrependNothing(r: Result)
    ensures Prepend([], r) == r
  {
    if r.Ok? {
      assert [] + r.avps == r.avps;
    }
  }

  lemma PrependCons(a: Avp, avps: seq<Avp>, r: Result)
    ensures Cons(a, Prepend(avps, r)) == Prepend([a] + avps, r)
  {
    if r.Ok? {
      assert [a] + (avps + r.avps) == [a] + avps + r.avps;
    }
  }

  /** One oversize attribute that is mandatory, and comes first, makes the receiver refuse the packet. */
  lemma OversizeFails(x: Context, avps: seq<Avp>, sent: bool, b: Bytes, randvec: Option<Bytes>)
    requires |x.randvec| == 4 && Packs(x, avps, sent, b)
    requires forall i | 0 <= i < |avps| :: Ordinary(avps[i])
    requires Find(x.info, 0, RANDOM_VECTOR).Some?
    requires sent ==> randvec == Some(x.randvec)
    ensures var k := FirstOversize(x, avps);
      k < |avps| && avps[k].mandatory ==> Unpack(x, b, randvec) == Err(UnknownMandatory)
  {
    hide Packs, Unpack, Fits, Ordinary, Spill;
    PackedMeans(x, avps, sent, b, randvec);
  }

  /** Exactly when a packet survives: every hidden value has at most 1015 bytes, two fewer than the
      packer itself allows; or the first that has more is optional, and its bytes from the eighth on,
      with all that follows, happen to read as that attribute and the rest. */
  lemma RoundTripIffFits(x: Context, avps: seq<Avp>, b: Bytes)
    requires |x.randvec| == 4 && Packs(x, avps, false, b)
    requires forall i | 0 <= i < |avps| :: Ordinary(avps[i])
    requires Find(x.info, 0, RANDOM_VECTOR).Some?
    ensures var k := FirstOversize(x, avps);
      && (k == |avps| <==> forall i | 0 <= i < |avps| && Hides(x, avps[i]) :: |avps[i].value| <= 1015)
      && (Unpack(x, b, None) == Ok(avps) <==>
            k == |avps| || (!avps[k].mandatory
              && Unpack(x, Spill(x, avps, false, b), Some(x.randvec)) == Ok(avps[k..])))
  {
    hide Packs, Unpack, Hides, Ordinary, Spill;
    PackedMeans(x, avps, false, b, None);
    var k := FirstOversize(x, avps);
    if k < |avps| {
      PrependInverts(avps, k, Unpack(x, Spill(x, avps, false, b), Some(x.randvec)));
    }
  }

  lemma PrependInverts(avps: seq<Avp>, k: nat, r: Result)
    requires k <= |avps|
    ensures Prepend(avps[..k], r) == Ok(avps) <==> r == Ok(avps[k..])
  {
    assert avps == avps[..k] + avps[k..];
    if Prepend(avps[..k], r) == Ok(avps) {
      assert r.avps == (avps[..k] + r.avps)[k..];
    }
  }
}
