/** The packer and the unpacker as they work on buffers: hiding and unhiding in place. */
module L2tpCodec {
  import opened Buffers
  import opened L2tpAvp

  method XorBlock(buf: array<Byte>, pos: nat, m: nat, hash: Digest)
    requires pos + m <= buf.Length && m <= 16
    modifies buf
    ensures buf[..] == Splice(old(buf[..]), pos, Xor(old(buf[pos..pos + m]), hash))
  {
    for k := 0 to m
      invariant forall i | 0 <= i < k :: buf[pos + i] == old(buf[pos + i]) ^ hash[i]
      invariant forall i | 0 <= i < buf.Length && !(pos <= i < pos + k) :: buf[i] == old(buf[i])
    {
      buf[pos + k] := buf[pos + k] ^ hash[k];
    }
  }

  function Min(a: int, b: int): int { if a < b then a else b }

  /** The key of the block after the hidden block `c`. */
  function NextKey(md5: Hash, secret: Bytes, c: Bytes): Digest { md5(secret + c) }

  lemma HideStep(md5: Hash, secret: Bytes, key: Digest, p: Bytes, l: nat)
    requires l < |p|
    ensures var m := Min(16, |p| - l);
            var c := Xor(p[l..l + m], key);
            Hide(md5, secret, key, p[l..])
            == c + if l + 16 < |p| then Hide(md5, secret, NextKey(md5, secret, c), p[l + 16..]) else []
  {
    if l + 16 < |p| {
      assert p[l..][..16] == p[l..l + 16] && p[l..][16..] == p[l + 16..];
    } else {
      assert p[l..] == p[l..l + Min(16, |p| - l)];
    }
  }

  lemma UnhideStep(md5: Hash, secret: Bytes, key: Digest, c: Bytes, l: nat)
    requires l < |c|
    ensures var m := Min(16, |c| - l);
            var b := c[l..l + m];
            Unhide(md5, secret, key, c[l..])
            == Xor(b, key)
               + if l + 16 < |c| then Unhide(md5, secret, NextKey(md5, secret, b), c[l + 16..]) else []
  {
    if l + 16 < |c| {
      assert c[l..][..16] == c[l..l + 16] && c[l..][16..] == c[l + 16..];
    } else {
      assert c[l..] == c[l..l + Min(16, |c| - l)];
    }
  }

  /** `done` is the hidden form of the first bytes of `p`, and the rest is to be hidden under `cur`. */
  predicate HidSoFar(md5: Hash, secret: Bytes, key: Digest, p: Bytes, done: Bytes, cur: Digest) {
    && |done| <= |p|
    && Hide(md5, secret, key, p)
       == done + if |done| < |p| then Hide(md5, secret, cur, p[|done|..]) else []
  }

  lemma HideOneMore(md5: Hash, secret: Bytes, key: Digest, p: Bytes, done: Bytes, cur: Digest)
    requires HidSoFar(md5, secret, key, p, done, cur) && |done| < |p|
    ensures var c := Xor(p[|done|..|done| + Min(16, |p| - |done|)], cur);
            HidSoFar(md5, secret, key, p, done + c, NextKey(md5, secret, c))
  {
    hide Hide;
    var l := |done|;
    var c := Xor(p[l..l + Min(16, |p| - l)], cur);
    HideStep(md5, secret, cur, p, l);
    var rest := if l + 16 < |p| then Hide(md5, secret, NextKey(md5, secret, c), p[l + 16..]) else [];
    assert done + (c + rest) == (done + c) + rest;
  }

  method HideInPlace(md5: Hash, secret: Bytes, key: Digest, buf: array<Byte>, off: nat, n: nat)
    requires off + n <= buf.Length && n > 0
    modifies buf
    ensures buf[..] == Splice(old(buf[..]), off, Hide(md5, secret, key, old(buf[off..off + n])))
  {
    hide Hide, Splice, Xor, HidSoFar;
    ghost var s := buf[..];
    ghost var p := s[off..off + n];
    assert buf[off..off + n] == p;
    ghost var done: Bytes := [];
    ghost var cur := key;    // the key of block l
    var hash := key;
    var l := 0;
    SpliceNothing(s, off);
    HideNothing(md5, secret, key, p);
    while l <= (n - 1) / 16
      invariant 0 <= l <= (n - 1) / 16 + 1
      invariant |done| == Min(16 * l, n)
      invariant buf[..] == Splice(s, off, done)
      invariant l == 0 ==> hash == cur
      invariant 0 < l && 16 * l < n ==> cur == NextKey(md5, secret, done[16 * l - 16..16 * l])
      invariant HidSoFar(md5, secret, key, p, done, cur)
    {
      var at := off + 16 * l;
      if l > 0 {
        SpliceReads(s, off, done, at - 16, at);
        assert buf[at - 16..at] == buf[..][at - 16..at];
        hash := md5(secret + buf[at - 16..at]);
      }
      var m := Min(16, n - 16 * l);
      SpliceReads(s, off, done, at, at + m);
      Slice(s, off, n, 16 * l, m);
      assert buf[at..at + m] == buf[..][at..at + m];
      XorBlock(buf, at, m, hash);
      ghost var c := Xor(p[16 * l..16 * l + m], cur);
      SpliceSplice(s, off, done, c);
      HideOneMore(md5, secret, key, p, done, cur);
      assert |c| == 16 ==> (done + c)[16 * l..16 * l + 16] == c;
      done, cur, l := done + c, NextKey(md5, secret, c), l + 1;
    }
    HideAll(md5, secret, key, p, done, cur);
  }

  lemma HideNothing(md5: Hash, secret: Bytes, key: Digest, p: Bytes)
    ensures HidSoFar(md5, secret, key, p, [], key)
  {
    assert p[0..] == p;
  }

  lemma HideAll(md5: Hash, secret: Bytes, key: Digest, p: Bytes, done: Bytes, cur: Digest)
    requires HidSoFar(md5, secret, key, p, done, cur) && |done| == |p|
    ensures done == Hide(md5, secret, key, p)
  {
    assert done + [] == done;
  }

  /** `done` is the plain form of the first bytes of `c`, and the rest is to be revealed under `cur`. */
  predicate UnhidSoFar(md5: Hash, secret: Bytes, key: Digest, c: Bytes, done: Bytes, cur: Digest) {
    && |done| <= |c|
    && Unhide(md5, secret, key, c)
       == done + if |done| < |c| then Unhide(md5, secret, cur, c[|done|..]) else []
  }

  lemma UnhideOneMore(md5: Hash, secret: Bytes, key: Digest, c: Bytes, done: Bytes, cur: Digest, next: Digest)
    requires UnhidSoFar(md5, secret, key, c, done, cur) && |done| < |c|
    requires |done| + 16 < |c| ==> next == NextKey(md5, secret, c[|done|..|done| + 16])
    ensures var b := c[|done|..|done| + Min(16, |c| - |done|)];
            UnhidSoFar(md5, secret, key, c, done + Xor(b, cur), next)
  {
    hide Unhide, NextKey;
    var l := |done|;
    var b := c[l..l + Min(16, |c| - l)];
    UnhideStep(md5, secret, cur, c, l);
    var rest := if l + 16 < |c| then Unhide(md5, secret, next, c[l + 16..]) else [];
    assert done + (Xor(b, cur) + rest) == (done + Xor(b, cur)) + rest;
  }

  lemma UnhideNothing(md5: Hash, secret: Bytes, key: Digest, c: Bytes)
    ensures UnhidSoFar(md5, secret, key, c, [], key)
  {
    assert c[0..] == c;
  }

  lemma UnhideAll(md5: Hash, secret: Bytes, key: Digest, c: Bytes, done: Bytes, cur: Digest)
    requires UnhidSoFar(md5, secret, key, c, done, cur) && |done| == |c|
    ensures done == Unhide(md5, secret, key, c)
  {
    assert done + [] == done;
  }

  /** The hash that unhides a block is computed from the hidden bytes before they are replaced; past
      the end of the buffer there is nothing to hash. */
  method UnhideInPlace(md5: Hash, secret: Bytes, key: Digest, buf: array<Byte>, off: nat, n: nat)
    requires off + n <= buf.Length
    modifies buf
    ensures buf[..] == Splice(old(buf[..]), off, Unhide(md5, secret, key, old(buf[off..off + n])))
  {
    hide Unhide, Splice, Xor, UnhidSoFar;
    ghost var s := buf[..];
    ghost var c := s[off..off + n];
    assert buf[off..off + n] == c;
    ghost var done: Bytes := [];
    var hash := key;
    var l := 0;
    SpliceNothing(s, off);
    UnhideNothing(md5, secret, key, c);
    if n == 0 {
      UnhideAll(md5, secret, key, c, done, key);
    }
    while l <= (n + 7) / 16
      invariant 0 <= l <= (n + 7) / 16 + 1
      invariant |done| == Min(16 * l, n)
      invariant buf[..] == Splice(s, off, done)
      invariant UnhidSoFar(md5, secret, key, c, done, hash) || |done| == n
      invariant |done| == n ==> done == Unhide(md5, secret, key, c)
    {
      var at := off + 16 * l;
      var nhash := md5(secret + buf[Min(at, buf.Length)..Min(at + 16, buf.Length)]);
      if 16 * l < n {
        var m := Min(16, n - 16 * l);
        SpliceReads(s, off, done, at, at + m);
        Slice(s, off, n, 16 * l, m);
        assert buf[at..at + m] == buf[..][at..at + m] == c[16 * l..16 * l + m];
        XorBlock(buf, at, m, hash);
        SpliceSplice(s, off, done, Xor(c[16 * l..16 * l + m], hash));
        UnhideOneMore(md5, secret, key, c, done, hash, nhash);
        done := done + Xor(c[16 * l..16 * l + m], hash);
        if |done| == n {
          UnhideAll(md5, secret, key, c, done, nhash);
        }
      }
      hash := nhash;
      l := l + 1;
    }
  }

  method FindInfo(info: seq<Info>, vendor: Word, kind: Word) returns (r: Option<Info>)
    ensures r == Find(info, vendor, kind)
  {
    var i := 0;
    while i < |info| && (info[i].vendor != vendor || info[i].kind != kind)
      invariant 0 <= i <= |info|
      invariant Find(info, vendor, kind) == Find(info[i..], vendor, kind)
    {
      assert info[i..][1..] == info[i + 1..];
      i := i + 1;
    }
    r := if i < |info| then Some(info[i]) else None;
  }

  // ---- Packing ----

  /** Whether a random vector has been sent by the end of a list. */
  function SentAfter(x: Context, avps: seq<Avp>, sent: bool): bool
    decreases avps
  {
    if avps == [] then sent else SentAfter(x, avps[1..], sent || Hides(x, avps[0]))
  }

  lemma {:induction false} LengthSnoc(x: Context, avps: seq<Avp>, a: Avp, sent: bool)
    ensures PackedLength(x, avps + [a], sent)
         == PackedLength(x, avps, sent) + OneLength(x, a, SentAfter(x, avps, sent))
    ensures SentAfter(x, avps + [a], sent) == (SentAfter(x, avps, sent) || Hides(x, a))
    decreases avps
  {
    hide Hides, OneLength;
    if avps == [] {
      assert ([] + [a])[1..] == [] && ([] + [a])[0] == a;
      assert PackedLength(x, [], sent || Hides(x, a)) == 0;
    } else {
      assert (avps + [a])[1..] == avps[1..] + [a];
      LengthSnoc(x, avps[1..], a, sent || Hides(x, avps[0]));
    }
  }

  lemma {:induction false} PacksSnoc(x: Context, avps: seq<Avp>, a: Avp, sent: bool, b: Bytes, e: Bytes)
    requires |x.randvec| == 4 && Packs(x, avps, sent, b)
    requires var s := SentAfter(x, avps, sent);
             |e| == OneLength(x, a, s) && PacksOne(x, a, s, e)
    ensures Packs(x, avps + [a], sent, b + e)
    decreases avps
  {
    hide Hides, OneLength, PacksOne;
    if avps == [] {
      assert b + e == e && ([] + [a])[1..] == [];
      assert e[|e|..] == [];
      assert Packs(x, [], sent || Hides(x, a), e[|e|..]);
    } else {
      var a0 := avps[0];
      var n := OneLength(x, a0, sent);
      PacksOneMore(x, a0, sent, b, e);
      assert (avps + [a])[1..] == avps[1..] + [a];
      assert (b + e)[n..] == b[n..] + e;
      PacksSnoc(x, avps[1..], a, sent || Hides(x, a0), b[n..], e);
    }
  }

  lemma PacksOneMore(x: Context, a: Avp, sent: bool, b: Bytes, e: Bytes)
    requires |x.randvec| == 4 && PacksOne(x, a, sent, b)
    ensures PacksOne(x, a, sent, b + e) && OneLength(x, a, sent) <= |b|
  {
    hide Packable, Prefix, Body, OneLength;
  }

  /** Looks the attribute up and checks its limits. */
  method Check(x: Context, a: Avp) returns (ok: bool, hidden: bool)
    ensures ok <==> Packable(x, a)
    ensures hidden <==> Hides(x, a)
  {
    var desc := FindInfo(x.info, a.vendor, a.kind);
    if desc.None? {
      return false, false;
    }
    ok := desc.value.minLength <= |a.value| <= desc.value.maxLength && |a.value| <= MAX_VLEN;
    hidden := x.secret.Some? && desc.value.hiddenOk;
  }

  /** One attribute is written at `len`, with a random vector before it if one is due.  Without a
      buffer only the length is computed. */
  method PackOne(x: Context, a: Avp, hidden: bool, randsent: bool, buf: array?<Byte>, len: nat)
    returns (len': nat)
    requires |x.randvec| == 4 && Packable(x, a) && hidden == Hides(x, a)
    requires buf != null ==> len + OneLength(x, a, randsent) <= buf.Length
    modifies buf
    ensures len' == len + OneLength(x, a, randsent)
    ensures buf != null ==>
              && |Prefix(x, a, randsent)| + |Body(x, a)| <= OneLength(x, a, randsent)
              && buf[..] == Splice(old(buf[..]), len, Prefix(x, a, randsent) + Body(x, a))
  {
    hide Header, Hide, Splice, Packable, Hides, U16, RandVecAvp;
    FitsIffShort(x, a);
    ghost var s := if buf == null then [] else buf[..];
    ghost var prefix: Bytes := [];
    var vlen := |a.value|;
    var pad := 0;
    len' := len;
    if buf != null {
      SpliceNothing(s, len);
    }
    if hidden && !randsent {
      prefix := RandVecAvp(x);
      if buf != null {
        CopyIn(buf, len', RandVecAvp(x));
      }
      len' := len' + 10;
    }
    if hidden {
      pad := PadLength(vlen);
    }
    var head := Header(Flags(a.mandatory, hidden, AvpLength(x, a)), a.vendor, a.kind);
    if buf != null {
      CopyIn(buf, len', head);
      SpliceSplice(s, len, prefix, head);
    }
    len' := len' + 6;
    if hidden {
      if buf != null {
        var secret := x.secret.value;
        var key := FirstKey(x.md5, a.kind, secret, x.randvec);
        var plain := U16(vlen) + a.value;
        CopyIn(buf, len', plain);
        SpliceSplice(s, len, prefix + head, plain);
        ghost var c := Hide(x.md5, secret, key, plain);
        SpliceOver(s, len, prefix + head, plain, c);
        assert buf[len'..len' + 2 + vlen] == buf[..][len'..len' + 2 + vlen] == plain;
        HideInPlace(x.md5, secret, key, buf, len', 2 + vlen);
        assert prefix + head + c == prefix + (head + c);
      }
      len' := len' + 2 + vlen + pad;
    } else {
      if buf != null {
        CopyIn(buf, len', a.value);
        SpliceSplice(s, len, prefix + head, a.value);
        assert prefix + head + a.value == prefix + (head + a.value);
      }
      len' := len' + vlen;
    }
  }

  /** Returns -1 if some attribute is not described or is out of limits. */
  method Pack(x: Context, avps: seq<Avp>, buf: array?<Byte>) returns (len: int)
    requires |x.randvec| == 4
    requires buf != null ==> PackedLength(x, avps, false) <= buf.Length
    modifies buf
    ensures len == if forall i | 0 <= i < |avps| :: Packable(x, avps[i])
                   then PackedLength(x, avps, false) else -1
    ensures buf != null && len >= 0 ==> Packs(x, avps, false, buf[..len])
    ensures buf != null && len >= 0 ==> buf[len..] == old(buf[len..])
  {
    hide Packs, PackedLength, Packable, Hides, OneLength, Prefix, Body, Splice;
    len := 0;
    var randsent := false;
    PackNothing(x);
    for i := 0 to |avps|
      invariant len == PackedLength(x, avps[..i], false)
      invariant randsent == SentAfter(x, avps[..i], false)
      invariant forall j | 0 <= j < i :: Packable(x, avps[j])
      invariant buf != null ==>
                  && len <= buf.Length
                  && Packs(x, avps[..i], false, buf[..len])
                  && buf[len..] == old(buf[len..])
    {
      var a := avps[i];
      var ok, hidden := Check(x, a);
      if !ok {
        return -1;
      }
      assert avps[..i + 1] == avps[..i] + [a];
      LengthSnoc(x, avps[..i], a, false);
      LengthMonotone(x, avps, i + 1);
      ghost var before := if buf == null then [] else buf[..];
      assert buf != null ==> before[..len] == buf[..len] && before[len..] == buf[len..];
      var len' := PackOne(x, a, hidden, randsent, buf, len);
      if buf != null {
        ghost var written := Prefix(x, a, randsent) + Body(x, a);
        SpliceParts(before, len, written, len');
        ghost var after := buf[..];
        Pieces(before, after, len, len');
        PacksSnoc(x, avps[..i], a, false, before[..len], after[len..len']);
        assert buf[..len'] == after[..len'] && buf[len'..] == after[len'..];
      }
      randsent := randsent || hidden;
      len := len';
    }
    assert avps[..|avps|] == avps;
  }

  lemma Pieces(before: Bytes, after: Bytes, len: nat, end: nat)
    requires len <= end <= |after| == |before| && after[..len] == before[..len] && after[end..] == before[end..]
    ensures after[..end] == before[..len] + after[len..end]
    ensures after[end..] == before[len..][end - len..]
  {
  }

  lemma PackNothing(x: Context)
    requires |x.randvec| == 4
    ensures Packs(x, [], false, []) && PackedLength(x, [], false) == 0
  {
  }

  lemma {:induction false} LengthMonotone(x: Context, avps: seq<Avp>, i: nat)
    requires i <= |avps|
    ensures PackedLength(x, avps[..i], false) <= PackedLength(x, avps, false)
    decreases |avps| - i
  {
    hide Hides, OneLength, PackedLength;
    if i < |avps| {
      assert avps[..i + 1] == avps[..i] + [avps[i]];
      LengthSnoc(x, avps[..i], avps[i], false);
      LengthMonotone(x, avps, i + 1);
    } else {
      assert avps[..i] == avps;
    }
  }

  // ---- Unpacking ----

  /** Attributes already read in front of the rest of the result. */
  function After(avps: seq<Avp>, r: Result): Result {
    if r.Ok? then Ok(avps + r.avps) else r
  }

  lemma AfterCons(avps: seq<Avp>, a: Avp, r: Result)
    ensures After(avps, Cons(a, r)) == After(avps + [a], r)
  {
    if r.Ok? {
      assert avps + ([a] + r.avps) == (avps + [a]) + r.avps;
    }
  }

  /** One step of the meaning of a packet, behind the attributes already read. */
  lemma UnpackStep(x: Context, avps: seq<Avp>, d: Bytes, randvec: Option<Bytes>)
    requires d != []
    ensures var (item, n) := Read(x, d, randvec);
            After(avps, Unpack(x, d, randvec)) ==
            match item
            case Bad(e) => Err(e)
            case Skip => After(avps, Unpack(x, d[n..], randvec))
            case Vector(bytes) => After(avps, Unpack(x, d[n..], Some(bytes)))
            case Value(a) => After(avps + [a], Unpack(x, d[n..], randvec))
  {
    hide Read;
    var (item, n) := Read(x, d, randvec);
    if item.Value? {
      AfterCons(avps, item.avp, Unpack(x, d[n..], randvec));
    }
  }

  lemma UnpackEnd(x: Context, avps: seq<Avp>, randvec: Option<Bytes>)
    ensures After(avps, Unpack(x, [], randvec)) == Ok(avps)
  {
    assert avps + [] == avps;
  }

  lemma AfterNothing(r: Result)
    ensures After([], r) == r
  {
    if r.Ok? {
      assert [] + r.avps == r.avps;
    }
  }

  lemma VectorReads(x: Context, d: Bytes, randvec: Option<Bytes>)
    requires Read(x, d, randvec).0.Vector?
    ensures 6 <= Read(x, d, randvec).1 <= |d|
    ensures Read(x, d, randvec).0.bytes == d[6..Read(x, d, randvec).1]
  {
    hide Revealed, FromU16, Find;
  }

  /** Unhides the body of the attribute at `pos` and extracts the value. */
  method Unhidden(x: Context, data: array<Byte>, pos: nat, length: nat, kind: Word, randvec: Bytes)
    returns (value: Option<Bytes>)
    requires 6 <= length && pos + length <= data.Length && x.secret.Some?
    modifies data
    ensures value == Revealed(x.md5, x.secret.value, kind, randvec, old(data[pos + 6..pos + length]))
    ensures data[..pos] == old(data[..pos])
    ensures data[pos + length..] == old(data[pos + length..])
  {
    hide Unhide, FirstKey;
    var secret := x.secret.value;
    var n := length - 6;
    ghost var s := data[..];
    ghost var c := data[pos + 6..pos + length];
    UnhideInPlace(x.md5, secret, FirstKey(x.md5, kind, secret, randvec), data, pos + 6, n);
    ghost var p := Unhide(x.md5, secret, FirstKey(x.md5, kind, secret, randvec), c);
    assert data[pos + 6..pos + length] == p;
    assert data[..pos] == s[..pos] && data[pos + length..] == s[pos + length..];
    if n < 2 {
      return None;
    }
    assert data[pos + 6] == p[0] && data[pos + 7] == p[1];
    var olen := (FromU16(data[pos + 6], data[pos + 7]) + 6) % 0x1_0000;
    if olen < 6 || olen > length - 2 {
      return None;
    }
    assert data[pos + 8..pos + 2 + olen] == p[2..olen - 4];
    value := Some(data[pos + 8..pos + 2 + olen]);
  }

  /** The attribute at `pos`; the last random vector, if any, is still at `rvAt`. */
  method ReadItem(x: Context, data: array<Byte>, pos: nat, rvAt: int, rvLen: nat)
    returns (item: Item, n: nat)
    requires pos <= data.Length && rvAt + rvLen <= data.Length
    modifies data
    ensures var rv := if rvAt < 0 then None else Some(old(data[rvAt..rvAt + rvLen]));
            (item, n) == Read(x, old(data[pos..]), rv)
    ensures data[..pos] == old(data[..pos])
    ensures !item.Bad? ==> data[pos + n..] == old(data[pos + n..])
    ensures item.Vector? ==> data[..] == old(data[..])
  {
    hide Revealed, FromU16, Find;
    ghost var d := data[pos..];
    if data.Length - pos < 6 {
      return Bad(Malformed), 0;
    }
    var flags := FromU16(data[pos], data[pos + 1]);
    var vendor := FromU16(data[pos + 2], data[pos + 3]);
    var kind := FromU16(data[pos + 4], data[pos + 5]);
    assert flags == WordAt(d, 0) && vendor == WordAt(d, 2) && kind == WordAt(d, 4);
    n := flags % 0x400;
    if n < 6 || n > data.Length - pos {
      return Bad(Malformed), 0;
    }
    assert d[6..n] == data[pos + 6..pos + n];
    var desc := FindInfo(x.info, vendor, kind);
    if flags / 0x400 % 16 != 0 || desc.None? {
      item := if flags >= MANDATORY then Bad(UnknownMandatory) else Skip;
    } else if vendor == 0 && kind == RANDOM_VECTOR {
      item := Vector(data[pos + 6..pos + n]);
    } else if flags / HIDDEN % 2 == 0 {
      item := Value(Avp(flags >= MANDATORY, vendor, kind, data[pos + 6..pos + n]));
    } else if rvAt < 0 {
      item := Bad(Malformed);
    } else if x.secret.None? {
      item := Bad(NoSecret);
    } else {
      var value := Unhidden(x, data, pos, n, kind, data[rvAt..rvAt + rvLen]);
      item := if value.None? then Bad(Malformed)
              else Value(Avp(flags >= MANDATORY, vendor, kind, value.value));
    }
  }

  lemma KeepsVector(before: Bytes, now: Bytes, pos: nat, rvAt: int, rvLen: nat)
    requires |before| == |now| && pos <= |now| && now[..pos] == before[..pos] && rvAt + rvLen <= pos
    ensures rvAt >= 0 ==> now[rvAt..rvAt + rvLen] == before[rvAt..rvAt + rvLen]
  {
    if rvAt >= 0 {
      assert now[..pos][rvAt..rvAt + rvLen] == now[rvAt..rvAt + rvLen];
      assert before[..pos][rvAt..rvAt + rvLen] == before[rvAt..rvAt + rvLen];
    }
  }

  lemma Tail(s: Bytes, pos: nat, i: nat, j: nat)
    requires i <= j && pos + j <= |s|
    ensures s[pos..][i..j] == s[pos + i..pos + j]
  {
  }

  method UnpackBuffer(x: Context, data: array<Byte>) returns (r: Result)
    modifies data
    ensures r == Unpack(x, old(data[..]), None)
  {
    hide Read, Unpack, After;
    ghost var s := data[..];
    ghost var randvec: Option<Bytes> := None;
    var rvAt, rvLen := -1, 0;      // where the last random vector is
    var list: seq<Avp> := [];
    var pos := 0;
    assert s[0..] == s;
    AfterNothing(Unpack(x, s, None));
    while pos < data.Length
      invariant 0 <= pos <= data.Length == |s|
      invariant data[pos..] == s[pos..]
      invariant 0 <= rvLen && (rvAt < 0 ==> randvec.None? && rvLen == 0)
      invariant rvAt >= 0 ==>
                  rvAt + rvLen <= pos && randvec == Some(data[rvAt..rvAt + rvLen])
      invariant Unpack(x, s, None) == After(list, Unpack(x, s[pos..], randvec))
      decreases data.Length - pos
    {
      ghost var d := s[pos..];
      UnpackStep(x, list, d, randvec);
      ghost var head, before := data[..pos], data[..];
      assert before[pos..] == d;
      var item, n := ReadItem(x, data, pos, rvAt, rvLen);
      KeepsVector(before, data[..], pos, rvAt, rvLen);
      match item {
        case Bad(e) =>
          return Err(e);
        case Skip =>
        case Vector(bytes) =>
          VectorReads(x, d, randvec);
          Tail(data[..], pos, 6, n);
          rvAt, rvLen := pos + 6, n - 6;
          randvec := Some(bytes);
        case Value(a) =>
          list := list + [a];
      }
      assert d[n..] == s[pos + n..];
      pos := pos + n;
    }
    assert s[pos..] == [];
    UnpackEnd(x, list, randvec);
    return Ok(list);
  }
}
