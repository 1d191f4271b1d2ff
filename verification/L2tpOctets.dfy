/** What packets mean, octet by octet: for any bytes, written by anyone (sections 4.1 and 4.3 of RFC 2661). */
module L2tpOctets {
  import opened Buffers
  import opened L2tpAvp

  // ---- Headers ----

  function Octet(data: Bytes, i: nat): int
    requires i < |data|
  {
    data[i] as int
  }

  /** The mandatory bit, the hidden bit, four reserved bits and ten of length. */
  predicate IsMandatory(data: Bytes)
    requires |data| >= 2
  {
    Octet(data, 0) >= 128
  }

  predicate IsHidden(data: Bytes)
    requires |data| >= 2
  {
    Octet(data, 0) / 64 % 2 == 1
  }

  predicate HasReserved(data: Bytes)
    requires |data| >= 2
  {
    Octet(data, 0) / 4 % 16 != 0
  }

  function LengthField(data: Bytes): (n: nat)
    requires |data| >= 2
    ensures n < 0x400
  {
    Octet(data, 0) % 4 * 256 + Octet(data, 1)
  }

  function VendorField(data: Bytes): Word
    requires |data| >= 6
  {
    Octet(data, 2) * 256 + Octet(data, 3)
  }

  function KindField(data: Bytes): Word
    requires |data| >= 6
  {
    Octet(data, 4) * 256 + Octet(data, 5)
  }

  predicate Described(info: seq<Info>, vendor: Word, kind: Word) {
    exists i | 0 <= i < |info| :: info[i].vendor == vendor && info[i].kind == kind
  }

  lemma {:induction false} FindDescribed(info: seq<Info>, vendor: Word, kind: Word)
    ensures Find(info, vendor, kind).Some? <==> Described(info, vendor, kind)
  {
    if info != [] {
      FindDescribed(info[1..], vendor, kind);
      if Described(info[1..], vendor, kind) {
        var i :| 0 <= i < |info[1..]| && info[1..][i].vendor == vendor && info[1..][i].kind == kind;
        assert info[i + 1] == info[1..][i];
      }
      if Described(info, vendor, kind) && !(info[0].vendor == vendor && info[0].kind == kind) {
        var i :| 0 <= i < |info| && info[i].vendor == vendor && info[i].kind == kind;
        assert info[1..][i - 1] == info[i];
      }
    }
  }

  /** The description that counts is the first. */
  lemma {:induction false} FindFirst(info: seq<Info>, vendor: Word, kind: Word) returns (i: nat)
    requires Described(info, vendor, kind)
    ensures i < |info| && Find(info, vendor, kind) == Some(info[i])
    ensures info[i].vendor == vendor && info[i].kind == kind
    ensures forall j | 0 <= j < i :: !(info[j].vendor == vendor && info[j].kind == kind)
  {
    if info[0].vendor == vendor && info[0].kind == kind {
      i := 0;
    } else {
      FindDescribed(info, vendor, kind);
      FindDescribed(info[1..], vendor, kind);
      i := FindFirst(info[1..], vendor, kind);
      i := i + 1;
    }
  }

  // ---- Hidden values ----

  /** An octet under a key. */
  function Keyed(c: Buffers.Byte, key: Buffers.Byte): Buffers.Byte { c ^ key }

  /** The key of the block octet `i` is in: the first is told by kind, secret and random vector, each
      further one by the secret and the hidden block before. */
  function KeyAt(md5: Hash, secret: Bytes, first: Digest, c: Bytes, i: nat): Digest
    requires i < |c|
  {
    if i < 16 then first else md5(secret + c[i / 16 * 16 - 16..i / 16 * 16])
  }

  lemma {:induction false} UnhiddenAt(md5: Hash, secret: Bytes, first: Digest, c: Bytes, i: nat)
    requires i < |c|
    ensures Unhide(md5, secret, first, c)[i] == Keyed(c[i], KeyAt(md5, secret, first, c, i)[i % 16])
    decreases |c|
  {
    hide Xor, Keyed, KeyAt;
    if i < 16 {
      XorAt(if |c| <= 16 then c else c[..16], first, i);
      KeyOfFirstBlock(md5, secret, first, c);
    } else {
      UnhiddenAt(md5, secret, md5(secret + c[..16]), c[16..], i - 16);
      KeyOfNextBlock(md5, secret, first, c, i);
      BlockBefore(c, i);
    }
  }

  lemma BlockBefore(c: Bytes, i: nat)
    requires 16 <= i < |c|
    ensures c[16..][i - 16] == c[i] && (i - 16) % 16 == i % 16
    ensures i < 32 ==> c[i / 16 * 16 - 16..i / 16 * 16] == c[..16]
    ensures i >= 32 ==> c[16..][(i - 16) / 16 * 16 - 16..(i - 16) / 16 * 16] == c[i / 16 * 16 - 16..i / 16 * 16]
  {
  }

  /** Hiding uses the keys of what is hidden. */
  lemma {:induction false} HiddenAt(md5: Hash, secret: Bytes, first: Digest, p: Bytes, i: nat)
    requires i < |p|
    ensures var c := Hide(md5, secret, first, p); c[i] == Keyed(p[i], KeyAt(md5, secret, first, c, i)[i % 16])
    decreases |p|
  {
    hide Hide, KeyAt;
    var c := Hide(md5, secret, first, p);
    if i < 16 {
      FirstHidden(md5, secret, first, p, i);
      KeyOfFirstBlock(md5, secret, first, c);
    } else {
      var next := HideSplit(md5, secret, first, p);
      HiddenAt(md5, secret, next, p[16..], i - 16);
      KeyOfNextBlock(md5, secret, first, c, i);
      BlockBefore(c, i);
    }
  }

  lemma FirstHidden(md5: Hash, secret: Bytes, first: Digest, p: Bytes, i: nat)
    requires i < |p| && i < 16
    ensures Hide(md5, secret, first, p)[i] == Keyed(p[i], first[i])
  {
    hide Xor, Keyed;
    if |p| <= 16 {
      XorAt(p, first, i);
    } else {
      XorAt(p[..16], first, i);
    }
  }

  lemma XorAt(p: Bytes, key: Digest, i: nat)
    requires i < |p| <= 16
    ensures Xor(p, key)[i] == Keyed(p[i], key[i])
  {
  }

  lemma HideSplit(md5: Hash, secret: Bytes, first: Digest, p: Bytes) returns (next: Digest)
    requires |p| > 16
    ensures var c := Hide(md5, secret, first, p);
      next == md5(secret + c[..16]) && c[16..] == Hide(md5, secret, next, p[16..])
  {
    var c0 := Xor(p[..16], first);
    next := md5(secret + c0);
    assert Hide(md5, secret, first, p) == c0 + Hide(md5, secret, next, p[16..]);
    assert Hide(md5, secret, first, p)[..16] == c0;
  }

  lemma KeyOfNextBlock(md5: Hash, secret: Bytes, first: Digest, c: Bytes, i: nat)
    requires 16 <= i < |c|
    ensures KeyAt(md5, secret, md5(secret + c[..16]), c[16..], i - 16) == KeyAt(md5, secret, first, c, i)
  {
    BlockBefore(c, i);
  }

  /** The key told by an attribute's kind, the secret and the random vector. */
  function FirstKeyOf(x: Context, kind: Word, randvec: Bytes): Digest
    requires x.secret.Some?
  {
    x.md5([(kind / 256) as Buffers.Byte, (kind % 256) as Buffers.Byte] + x.secret.value + randvec)
  }

  /** The length a hidden attribute states: the first two octets revealed. */
  function Stated(x: Context, kind: Word, randvec: Bytes, c: Bytes): nat
    requires x.secret.Some? && |c| >= 2
  {
    var first := FirstKeyOf(x, kind, randvec);
    (Keyed(c[0], first[0]) as int) * 256 + Keyed(c[1], first[1]) as int
  }

  /** A hidden value is there if its stated length leaves room for the two octets that state it, and
      then its octets are the hidden ones under their keys. */
  lemma RevealedExactly(x: Context, kind: Word, randvec: Bytes, c: Bytes)
    requires x.secret.Some? && |c| < 0x400
    ensures var v := Revealed(x.md5, x.secret.value, kind, randvec, c);
      && (v.Some? <==> |c| >= 2 && Stated(x, kind, randvec, c) <= |c| - 2)
      && (v.Some? ==> |v.value| == Stated(x, kind, randvec, c) <= |c| - 2)
      && (v.Some? ==> forall i | 0 <= i < |v.value| ::
            v.value[i] ==
              Keyed(c[i + 2], KeyAt(x.md5, x.secret.value, FirstKeyOf(x, kind, randvec), c, i + 2)[(i + 2) % 16]))
  {
    hide Unhide, KeyAt, Stated, FromU16, Keyed;
    if |c| >= 2 {
      var first := FirstKeyOf(x, kind, randvec);
      var p := Unhide(x.md5, x.secret.value, first, c);
      forall i | 0 <= i < |c|
        ensures p[i] == Keyed(c[i], KeyAt(x.md5, x.secret.value, first, c, i)[i % 16])
      {
        UnhiddenAt(x.md5, x.secret.value, first, c, i);
      }
      StatedIs(x, kind, randvec, c);
      Room(FromU16(p[0], p[1]), |c|);
    }
  }

  lemma StatedIs(x: Context, kind: Word, randvec: Bytes, c: Bytes)
    requires x.secret.Some? && |c| >= 2
    ensures var p := Unhide(x.md5, x.secret.value, FirstKeyOf(x, kind, randvec), c);
      FromU16(p[0], p[1]) == Stated(x, kind, randvec, c)
  {
    hide Unhide, Keyed, FromU16;
    var first := FirstKeyOf(x, kind, randvec);
    UnhiddenAt(x.md5, x.secret.value, first, c, 0);
    UnhiddenAt(x.md5, x.secret.value, first, c, 1);
    var p := Unhide(x.md5, x.secret.value, first, c);
    Joined(p[0], p[1]);
  }

  lemma Joined(hi: Buffers.Byte, lo: Buffers.Byte)
    ensures FromU16(hi, lo) == (hi as int) * 256 + lo as int
  {
  }

  /** The 16-bit sum of the test, told without it. */
  lemma Room(n: Word, size: nat)
    requires 2 <= size < 0x400
    ensures var olen := (n + 6) % 0x1_0000;
      && (olen < 6 || olen > size + 4 <==> n > size - 2)
      && (n <= size - 2 ==> olen - 4 == n + 2)
  {
  }

  lemma KeyOfFirstBlock(md5: Hash, secret: Bytes, first: Digest, c: Bytes)
    ensures forall i | 0 <= i < |c| && i < 16 :: KeyAt(md5, secret, first, c, i) == first
  {
  }

  // ---- One attribute ----

  /** The octets of a header say what its words are read for. */
  lemma HeaderWords(data: Bytes)
    requires |data| >= 6
    ensures WordAt(data, 0) % 0x400 == LengthField(data)
    ensures WordAt(data, 0) / 0x400 % 16 != 0 <==> HasReserved(data)
    ensures WordAt(data, 0) >= MANDATORY <==> IsMandatory(data)
    ensures WordAt(data, 0) / HIDDEN % 2 == 1 <==> IsHidden(data)
    ensures WordAt(data, 2) == VendorField(data) && WordAt(data, 4) == KindField(data)
  {
    WordBits(Octet(data, 0), Octet(data, 1));
  }

  lemma WordBits(hi: int, lo: int)
    requires 0 <= hi < 256 && 0 <= lo < 256
    ensures var w := hi * 256 + lo;
      && w % 0x400 == hi % 4 * 256 + lo
      && w / 0x400 % 16 == hi / 4 % 16
      && (w >= 0x8000 <==> hi >= 128)
      && w / 0x4000 % 2 == hi / 64 % 2
  {
  }

  /** A whole attribute stands at the head. */
  predicate Whole(data: Bytes) {
    |data| >= 6 && 6 <= LengthField(data) <= |data|
  }

  /** An attribute cut short refuses the packet. */
  lemma CutShort(x: Context, data: Bytes, randvec: Option<Bytes>)
    requires data != [] && !Whole(data)
    ensures Unpack(x, data, randvec) == Err(Malformed)
  {
    if |data| >= 6 {
      HeaderWords(data);
    }
  }

  /** One that is not understood refuses the packet just if it is mandatory, and is nothing otherwise. */
  lemma NotUnderstood(x: Context, data: Bytes, randvec: Option<Bytes>)
    requires Whole(data) && (HasReserved(data) || !Described(x.info, VendorField(data), KindField(data)))
    ensures Unpack(x, data, randvec) ==
      if IsMandatory(data) then Err(UnknownMandatory) else Unpack(x, data[LengthField(data)..], randvec)
  {
    hide WordAt, Find, LengthField, VendorField, KindField, IsMandatory, IsHidden, HasReserved, Described, Revealed;
    HeaderWords(data);
    FindDescribed(x.info, VendorField(data), KindField(data));
  }

  predicate Understood(x: Context, data: Bytes) {
    Whole(data) && !HasReserved(data) && Described(x.info, VendorField(data), KindField(data))
  }

  /** A random vector is remembered, and replaces any before it. */
  lemma RandomVector(x: Context, data: Bytes, randvec: Option<Bytes>)
    requires Understood(x, data) && VendorField(data) == 0 && KindField(data) == RANDOM_VECTOR
    ensures Unpack(x, data, randvec) == Unpack(x, data[LengthField(data)..], Some(data[6..LengthField(data)]))
  {
    hide WordAt, Find, LengthField, VendorField, KindField, IsMandatory, IsHidden, HasReserved, Described, Revealed;
    HeaderWords(data);
    FindDescribed(x.info, VendorField(data), KindField(data));
  }

  /** Any other attribute that is not hidden has its octets for a value. */
  lemma PlainAttribute(x: Context, data: Bytes, randvec: Option<Bytes>)
    requires Understood(x, data) && !(VendorField(data) == 0 && KindField(data) == RANDOM_VECTOR) && !IsHidden(data)
    ensures Unpack(x, data, randvec) ==
      Cons(Avp(IsMandatory(data), VendorField(data), KindField(data), data[6..LengthField(data)]),
           Unpack(x, data[LengthField(data)..], randvec))
  {
    hide WordAt, Find, LengthField, VendorField, KindField, IsMandatory, IsHidden, HasReserved, Described, Revealed;
    HeaderWords(data);
    FindDescribed(x.info, VendorField(data), KindField(data));
  }

  /** A hidden one needs a random vector before it, a secret, and a stated length that leaves room for the
      two octets that state it. */
  lemma HiddenAttribute(x: Context, data: Bytes, randvec: Option<Bytes>)
    requires Understood(x, data) && !(VendorField(data) == 0 && KindField(data) == RANDOM_VECTOR) && IsHidden(data)
    ensures var n := LengthField(data); var c := data[6..n];
      && (randvec.None? ==> Unpack(x, data, randvec) == Err(Malformed))
      && (randvec.Some? && x.secret.None? ==> Unpack(x, data, randvec) == Err(NoSecret))
      && (randvec.Some? && x.secret.Some? ==>
            if |c| < 2 || Stated(x, KindField(data), randvec.value, c) > |c| - 2
            then Unpack(x, data, randvec) == Err(Malformed)
            else
              var v := Revealed(x.md5, x.secret.value, KindField(data), randvec.value, c);
              v.Some? && Unpack(x, data, randvec) ==
                Cons(Avp(IsMandatory(data), VendorField(data), KindField(data), v.value),
                     Unpack(x, data[n..], randvec)))
  {
    hide WordAt, Find, VendorField, KindField, IsMandatory, IsHidden, HasReserved, Described, Revealed, Stated;
    HeaderWords(data);
    FindDescribed(x.info, VendorField(data), KindField(data));
    if randvec.Some? && x.secret.Some? {
      RevealedExactly(x, KindField(data), randvec.value, data[6..LengthField(data)]);
    }
  }

  // ---- What is packed ----

  /** The description that counts for an attribute. */
  predicate FirstAt(info: seq<Info>, vendor: Word, kind: Word, i: nat) {
    && i < |info| && info[i].vendor == vendor && info[i].kind == kind
    && forall j | 0 <= j < i :: !(info[j].vendor == vendor && info[j].kind == kind)
  }

  lemma OneFirst(info: seq<Info>, vendor: Word, kind: Word, i: nat)
    requires FirstAt(info, vendor, kind, i)
    ensures Find(info, vendor, kind) == Some(info[i])
  {
    assert Described(info, vendor, kind);
    var j := FindFirst(info, vendor, kind);
    assert !(i < j) && !(j < i);
  }

  /** An attribute can be packed if it is described, its value is within the limits described, and is no
      longer than 1017; it is hidden if there is a secret and its description allows. */
  lemma PackableExactly(x: Context, a: Avp)
    ensures Packable(x, a) <==> |a.value| <= 1017 && exists i: nat ::
      FirstAt(x.info, a.vendor, a.kind, i) && x.info[i].minLength <= |a.value| <= x.info[i].maxLength
    ensures Hides(x, a) <==> x.secret.Some? && exists i: nat ::
      FirstAt(x.info, a.vendor, a.kind, i) && x.info[i].hiddenOk
  {
    hide Find, FirstAt;
    FindDescribed(x.info, a.vendor, a.kind);
    if Described(x.info, a.vendor, a.kind) {
      var i := FindFirst(x.info, a.vendor, a.kind);
      assert FirstAt(x.info, a.vendor, a.kind, i) by { IsFirst(x.info, a.vendor, a.kind, i); }
    }
    forall i: nat | FirstAt(x.info, a.vendor, a.kind, i)
      ensures i < |x.info| && Find(x.info, a.vendor, a.kind) == Some(x.info[i])
    {
      assert i < |x.info| by { InTable(x.info, a.vendor, a.kind, i); }
      OneFirst(x.info, a.vendor, a.kind, i);
    }
  }

  lemma IsFirst(info: seq<Info>, vendor: Word, kind: Word, i: nat)
    requires i < |info| && info[i].vendor == vendor && info[i].kind == kind
    requires forall j | 0 <= j < i :: !(info[j].vendor == vendor && info[j].kind == kind)
    ensures FirstAt(info, vendor, kind, i)
  {
  }

  lemma InTable(info: seq<Info>, vendor: Word, kind: Word, i: nat)
    requires FirstAt(info, vendor, kind, i)
    ensures i < |info|
  {
  }

  /** The octets of an attribute that fits: header fields, then the value, or the value with its length
      before it under the keys. */
  lemma PackedOctets(x: Context, a: Avp)
    requires Packable(x, a) && Fits(x, a)
    ensures var b := Body(x, a);
      && |b| >= 6 && LengthField(b) == AvpLength(x, a) && !HasReserved(b)
      && (IsMandatory(b) <==> a.mandatory) && (IsHidden(b) <==> Hides(x, a))
      && VendorField(b) == a.vendor && KindField(b) == a.kind
      && (!Hides(x, a) ==> b[6..] == a.value)
      && (Hides(x, a) ==> |b| == 8 + |a.value| && forall i | 0 <= i < 2 + |a.value| ::
            b[6 + i] == Keyed((U16(|a.value|) + a.value)[i],
                              KeyAt(x.md5, x.secret.value, FirstKeyOf(x, a.kind, x.randvec), b[6..], i)[i % 16]))
  {
    hide WordAt, Header, Hide, KeyAt, Keyed, U16;
    hide LengthField, VendorField, KindField, IsMandatory, IsHidden, HasReserved;
    var flags := Flags(a.mandatory, Hides(x, a), AvpLength(x, a));
    var b := Body(x, a);
    assert b[..6] == Header(flags, a.vendor, a.kind);
    HeaderReads(flags, a.vendor, a.kind, b);
    HeaderWords(b);
    FitsIffShort(x, a);
    FlagsRead(a.mandatory, Hides(x, a), AvpLength(x, a));
    if Hides(x, a) {
      var first, p := FirstKeyOf(x, a.kind, x.randvec), U16(|a.value|) + a.value;
      FirstKeyIs(x, a.kind);
      assert b[6..] == Hide(x.md5, x.secret.value, first, p);
      forall i | 0 <= i < |p| ensures b[6..][i] == Keyed(p[i], KeyAt(x.md5, x.secret.value, first, b[6..], i)[i % 16]) {
        HiddenAt(x.md5, x.secret.value, first, p, i);
      }
    }
  }

  lemma FirstKeyIs(x: Context, kind: Word)
    requires x.secret.Some?
    ensures FirstKey(x.md5, kind, x.secret.value, x.randvec) == FirstKeyOf(x, kind, x.randvec)
  {
  }

  /** A hidden attribute is padded to one octet short of a multiple of eight. */
  lemma HiddenLength(x: Context, a: Avp)
    requires Hides(x, a)
    ensures AvpLength(x, a) % 8 == 7 && 8 + |a.value| <= AvpLength(x, a) <= 15 + |a.value|
  {
  }

  function Total(x: Context, avps: seq<Avp>): nat {
    if avps == [] then 0 else AvpLength(x, avps[0]) + Total(x, avps[1..])
  }

  /** A packet has one random vector if it hides anything, and none otherwise. */
  lemma {:induction false} VectorOnce(x: Context, avps: seq<Avp>, sent: bool)
    ensures PackedLength(x, avps, sent) ==
      Total(x, avps) + if !sent && exists i | 0 <= i < |avps| :: Hides(x, avps[i]) then 10 else 0
    decreases avps
  {
    hide Hides, AvpLength;
    if avps != [] {
      VectorOnce(x, avps[1..], sent || Hides(x, avps[0]));
      assert avps == [avps[0]] + avps[1..];
      forall i | 0 < i < |avps| ensures avps[i] == avps[1..][i - 1] {
      }
    }
  }

  /** The random vector is an attribute of its own: mandatory, ten octets, vendor 0, kind 36. */
  lemma VectorOctets(x: Context)
    requires |x.randvec| == 4
    ensures RandVecAvp(x) == [0x80, 10, 0, 0, 0, 36] + x.randvec
  {
  }
}
