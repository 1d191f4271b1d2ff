/** Which of the peer's LCP options are admitted, told from their octets, and what they leave behind. */
module LcpAdmit {
  import opened FsmOptions
  import opened LcpOptions
  import opened LcpDecode

  /** A number in network order. */
  function Number(d: Octets): nat {
    if d == [] then 0 else Number(d[..|d| - 1]) * 256 + d[|d| - 1]
  }

  lemma Numbers(d: Octets)
    ensures |d| == 2 ==> GetShort(d) == Number(d)
    ensures |d| == 4 ==> GetLong(d) == Number(d)
  {
    if |d| == 2 {
      assert d[..1] == [d[0]] && d[..1][..0] == [] && Number(d[..1]) == d[0];
    }
    if |d| == 4 {
      assert d[..3][..2] == d[..2] && d[..2][..1] == [d[0]] && d[..1] == [d[0]] && d[..1][..0] == [];
      assert d[..3][2] == d[2] == d[2..][0] && d[2..][1] == d[3];
    }
  }

  /** The octets that ask for an authentication protocol; whatever follows EAP's is not looked at. */
  predicate Names(d: Octets, a: Auth) {
    match a
    case Pap => d == [0xc0, 0x23]
    case ChapMd5 => d == [0xc2, 0x23, 0x05]
    case ChapMsV1 => d == [0xc2, 0x23, 0x80]
    case ChapMsV2 => d == [0xc2, 0x23, 0x81]
    case Eap => [0xc2, 0x27] <= d
  }

  /** An option the configuration admits. */
  predicate Admits(conf: Conf, o: Option) {
    var d, n := o.data, |o.data|;
    match o.kind
    case 1 => n == 2 && Number(d) >= 296
    case 2 => n == 4
    case 3 => exists a | a in conf.auths :: Names(d, a)
    case 5 => n == 4 && conf.magic != 0 && Number(d) != conf.magic
    case 7 => n == 0 && conf.protoComp
    case 8 => n == 0 && conf.acfComp
    case 17 => n == 2 && conf.multilink && Number(d) >= 296
    case 18 => n == 0 && conf.multilink && conf.shortSeq
    case 19 => 1 <= n <= 48
    case _ => false
  }

  /** What a refused option is corrected to, if it is: numbers too low to the least admitted, our own
      magic number to its complement, and an authentication to the first of these we accept. */
  function Correction(conf: Conf, o: Option): seq<Octets> {
    var d, n := o.data, |o.data|;
    match o.kind
    case 1 => if n == 2 then [[1, 40]] else []
    case 17 => if n == 2 && conf.multilink then [[1, 40]] else []
    case 5 => if n == 4 && conf.magic != 0 then [[255 - d[0], 255 - d[1], 255 - d[2], 255 - d[3]]] else []
    case 3 =>
      if n < 2 then []
      else if ChapMsV2 in conf.auths then [[0xc2, 0x23, 0x81]]
      else if ChapMsV1 in conf.auths then [[0xc2, 0x23, 0x80]]
      else if ChapMd5 in conf.auths then [[0xc2, 0x23, 0x05]]
      else if Pap in conf.auths then [[0xc0, 0x23]]
      else if Eap in conf.auths then [[0xc2, 0x27]]
      else []
    case _ => []
  }

  /** The verdict on every option, in these terms. */
  lemma Verdicts(conf: Conf, o: Option)
    ensures Judge(conf, o) ==
      if Admits(conf, o) then Ack
      else if Correction(conf, o) != [] then Nak(Option(o.kind, Correction(conf, o)[0]))
      else Rej
  {
    hide JudgeAuth, Number, GetShort, GetLong, PutLong, PutShort;
    Numbers(o.data);
    if o.kind == AUTHPROTO {
      if |o.data| >= 2 {
        AuthVerdict(conf, o);
      } else {
        NoAuth(conf, o.data);
      }
    } else if o.kind == MAGICNUM && |o.data| == 4 {
      Complement(o.data);
    } else {
      Least();
    }
  }

  lemma Least()
    ensures PutShort(MIN_MRU) == [1, 40]
  {
  }

  lemma NoAuth(conf: Conf, d: Octets)
    requires |d| < 2
    ensures !exists a | a in conf.auths :: Names(d, a)
  {
  }

  lemma Complement(d: Octets)
    requires |d| == 4
    ensures PutLong(LONG - 1 - GetLong(d)) == [255 - d[0], 255 - d[1], 255 - d[2], 255 - d[3]]
  {
    var c: Octets := [255 - d[0], 255 - d[1], 255 - d[2], 255 - d[3]];
    assert c[..2] == [255 - d[0], 255 - d[1]] && c[2..] == [255 - d[2], 255 - d[3]];
    assert d[..2] == [d[0], d[1]] && d[2..] == [d[2], d[3]];
    ShortComplement(d[0], d[1]);
    ShortComplement(d[2], d[3]);
    Joined(GetShort(d[..2]), GetShort(d[2..]));
  }

  lemma ShortComplement(high: Octet, low: Octet)
    ensures PutShort(0xffff - GetShort([high, low])) == [255 - high, 255 - low]
  {
  }

  lemma Joined(high: Short, low: Short)
    ensures var n := LONG - 1 - (high * 0x1_0000 + low);
      n / 0x1_0000 == 0xffff - high && n % 0x1_0000 == 0xffff - low
  {
  }

  lemma AuthVerdict(conf: Conf, o: Option)
    requires o.kind == AUTHPROTO && |o.data| >= 2
    ensures Judge(conf, o) ==
      if Admits(conf, o) then Ack
      else if Correction(conf, o) != [] then Nak(Option(o.kind, Correction(conf, o)[0]))
      else Rej
  {
    hide AskedAuth, FirstOf, Names;
    AskedNames(o.data);
    Preference(conf.auths);
    Suggestions();
  }

  /** The protocol asked for is the one the octets name. */
  lemma AskedNames(d: Octets)
    requires |d| >= 2
    ensures forall a :: Names(d, a) <==> AskedAuth(d) == [a]
    ensures |AskedAuth(d)| <= 1
  {
    hide Find;
    var alg := if GetShort(d) == CHAP && |d| == 3 then d[2] else 0;
    FindKnown(GetShort(d), alg);
    TwoOctets(d);
  }

  lemma TwoOctets(d: Octets)
    requires |d| >= 2
    ensures GetShort(d) == PAP <==> d[0] == 0xc0 && d[1] == 0x23
    ensures GetShort(d) == CHAP <==> d[0] == 0xc2 && d[1] == 0x23
    ensures GetShort(d) == EAP <==> d[0] == 0xc2 && d[1] == 0x27
  {
  }

  lemma FindKnown(proto: Short, alg: Octet)
    ensures Find(proto, alg, KNOWN) ==
      if proto == PAP && alg == 0 then [Pap]
      else if proto == CHAP && alg == 0x05 then [ChapMd5]
      else if proto == CHAP && alg == 0x80 then [ChapMsV1]
      else if proto == CHAP && alg == 0x81 then [ChapMsV2]
      else if proto == EAP && alg == 0 then [Eap]
      else []
  {
    assert KNOWN == [Pap] + ([ChapMd5] + ([ChapMsV1] + ([ChapMsV2] + ([Eap] + []))));
    FindOne(proto, alg, Eap, []);
    FindOne(proto, alg, ChapMsV2, [Eap] + []);
    FindOne(proto, alg, ChapMsV1, [ChapMsV2] + ([Eap] + []));
    FindOne(proto, alg, ChapMd5, [ChapMsV1] + ([ChapMsV2] + ([Eap] + [])));
    FindOne(proto, alg, Pap, [ChapMd5] + ([ChapMsV1] + ([ChapMsV2] + ([Eap] + []))));
  }

  lemma FindOne(proto: Short, alg: Octet, b: Auth, rest: seq<Auth>)
    ensures Find(proto, alg, [b] + rest) == if b.Proto() == proto && b.Alg() == alg then [b] else Find(proto, alg, rest)
  {
    assert ([b] + rest)[1..] == rest;
  }

  /** The order in which protocols are suggested. */
  lemma Preference(auths: set<Auth>)
    ensures FirstOf(PREFERRED, auths) ==
      if ChapMsV2 in auths then [ChapMsV2]
      else if ChapMsV1 in auths then [ChapMsV1]
      else if ChapMd5 in auths then [ChapMd5]
      else if Pap in auths then [Pap]
      else if Eap in auths then [Eap]
      else []
  {
    assert PREFERRED == [ChapMsV2] + ([ChapMsV1] + ([ChapMd5] + ([Pap] + ([Eap] + []))));
    FirstOne(auths, Eap, []);
    FirstOne(auths, Pap, [Eap] + []);
    FirstOne(auths, ChapMd5, [Pap] + ([Eap] + []));
    FirstOne(auths, ChapMsV1, [ChapMd5] + ([Pap] + ([Eap] + [])));
    FirstOne(auths, ChapMsV2, [ChapMsV1] + ([ChapMd5] + ([Pap] + ([Eap] + []))));
  }

  lemma FirstOne(auths: set<Auth>, b: Auth, rest: seq<Auth>)
    ensures FirstOf([b] + rest, auths) == if b in auths then [b] else FirstOf(rest, auths)
  {
    assert ([b] + rest)[1..] == rest;
  }

  lemma Suggestions()
    ensures Pap.Suggestion().data == [0xc0, 0x23] && Eap.Suggestion().data == [0xc2, 0x27]
    ensures ChapMd5.Suggestion().data == [0xc2, 0x23, 0x05]
    ensures ChapMsV1.Suggestion().data == [0xc2, 0x23, 0x80] && ChapMsV2.Suggestion().data == [0xc2, 0x23, 0x81]
  {
  }

  // ---- Requests ----

  /** A request is acknowledged iff each of its options is admitted; rejected iff one is refused without a
      correction; corrected otherwise. */
  lemma RequestAnswered(conf: Conf, data: Octets)
    ensures var os, r := Extract(data, 100).opts, Answer(conf, data);
      && (r.ConfigAck? <==> forall o | o in os :: Admits(conf, o))
      && (r.ConfigRej? <==> exists o | o in os :: !Admits(conf, o) && Correction(conf, o) == [])
  {
    hide Judge, Extract, Admits, Correction, Acked, Naked, Rejected, PutAll;
    var os := Extract(data, MAX_OPTS).opts;
    AckedWhole(conf, data);
    forall o ensures Judge(conf, o).Ack? <==> Admits(conf, o)
      ensures Judge(conf, o).Rej? <==> !Admits(conf, o) && Correction(conf, o) == []
    {
      Verdicts(conf, o);
    }
    Partition(conf, os);
    NonePut(Rejected(conf, os));
    if Rejected(conf, os) != [] {
      assert Rejected(conf, os)[0] in Rejected(conf, os);
    }
  }

  // ---- What the peer is taken for ----

  datatype Data = Absent | Given(octets: Octets)

  /** The data of the last admitted option of a kind. */
  function LastOf(conf: Conf, kind: Octet, os: seq<Option>): Data {
    if os == [] then Absent
    else
      var o := os[|os| - 1];
      if o.kind == kind && Admits(conf, o) then Given(o.data) else LastOf(conf, kind, os[..|os| - 1])
  }

  /** The algorithm octet of the last admitted CHAP. */
  function LastChap(conf: Conf, os: seq<Option>): Octet {
    if os == [] then 0
    else
      var o := os[|os| - 1];
      if o.kind == 3 && Admits(conf, o) && |o.data| == 3 && o.data[1] == 0x23 then o.data[2]
      else LastChap(conf, os[..|os| - 1])
  }

  function NumberOr(d: Data, default: nat): nat {
    if d.Given? then Number(d.octets) else default
  }

  /** After a request everything known of the peer is what its last admitted option of the kind says, or the
      default; only the endpoint discriminator outlives a request that has none. */
  predicate Known(conf: Conf, was: Peer, os: seq<Option>, now: Peer) {
    var auth, discrim := LastOf(conf, 3, os), LastOf(conf, 19, os);
    && now.accmap == NumberOr(LastOf(conf, 2, os), 0xffff_ffff)
    && now.auth == (if auth.Given? && |auth.octets| >= 2 then Number(auth.octets[..2]) else 0)
    && now.alg == LastChap(conf, os)
    && now.magic == NumberOr(LastOf(conf, 5, os), 0)
    && now.protoComp == LastOf(conf, 7, os).Given?
    && now.acfComp == LastOf(conf, 8, os).Given?
    && now.mrru == NumberOr(LastOf(conf, 17, os), 0)
    && now.shortSeq == LastOf(conf, 18, os).Given?
    && now.discrim == (if discrim.Given? then discrim.octets else was.discrim)
  }

  lemma {:induction false} PeerIsKnown(conf: Conf, was: Peer, os: seq<Option>)
    ensures Known(conf, was, os, LearnAll(conf, Forgotten(conf, was), os))
    decreases |os|
  {
    hide Judge, Learn, Admits, Known, LastOf, LastChap;
    if os == [] {
      KnownAtFirst(conf, was);
    } else {
      var before, o := os[..|os| - 1], os[|os| - 1];
      assert os == before + [o];
      PeerIsKnown(conf, was, before);
      LearnSnoc(conf, Forgotten(conf, was), before, o);
      Verdicts(conf, o);
      KnownNext(conf, was, before, o, LearnAll(conf, Forgotten(conf, was), before));
    }
  }

  lemma KnownAtFirst(conf: Conf, was: Peer)
    ensures Known(conf, was, [], LearnAll(conf, Forgotten(conf, was), []))
  {
  }

  lemma LastNext(conf: Conf, kind: Octet, os: seq<Option>, o: Option)
    ensures LastOf(conf, kind, os + [o]) ==
      if o.kind == kind && Admits(conf, o) then Given(o.data) else LastOf(conf, kind, os)
  {
    hide Admits;
    assert (os + [o])[..|os|] == os;
  }

  lemma ChapNext(conf: Conf, os: seq<Option>, o: Option)
    ensures LastChap(conf, os + [o]) ==
      if o.kind == 3 && Admits(conf, o) && |o.data| == 3 && o.data[1] == 0x23 then o.data[2] else LastChap(conf, os)
  {
    hide Admits;
    assert (os + [o])[..|os|] == os;
  }

  lemma KnownNext(conf: Conf, was: Peer, os: seq<Option>, o: Option, p: Peer)
    requires Known(conf, was, os, p) && (Judge(conf, o).Ack? <==> Admits(conf, o))
    ensures Known(conf, was, os + [o], if Judge(conf, o).Ack? then Learn(p, o) else p)
  {
    hide Judge, LastOf, LastChap, Number, GetShort, GetLong;
    forall kind: Octet ensures LastOf(conf, kind, os + [o]) ==
      if o.kind == kind && Admits(conf, o) then Given(o.data) else LastOf(conf, kind, os)
    {
      LastNext(conf, kind, os, o);
    }
    ChapNext(conf, os, o);
    if Admits(conf, o) {
      Numbers(o.data);
      if o.kind == AUTHPROTO {
        AuthLearnt(conf, o);
      }
    }
  }

  lemma AuthLearnt(conf: Conf, o: Option)
    requires o.kind == AUTHPROTO && Admits(conf, o)
    ensures |o.data| >= 2 && GetShort(o.data) == Number(o.data[..2])
    ensures GetShort(o.data) == CHAP && |o.data| > 2 <==> |o.data| == 3 && o.data[1] == 0x23
  {
    var a :| a in conf.auths && Names(o.data, a);
    Numbers(o.data[..2]);
    assert GetShort(o.data) == GetShort(o.data[..2]);
    TwoOctets(o.data);
  }

  /** The MRU is our limit or the least one admitted. */
  lemma MruIsLeast(conf: Conf, was: Peer, os: seq<Option>)
    ensures var mru := LearnAll(conf, Forgotten(conf, was), os).mru;
      && mru <= conf.mtu
      && (forall o | o in os && o.kind == 1 && Admits(conf, o) :: mru <= Number(o.data))
      && (mru == conf.mtu || exists o | o in os :: o.kind == 1 && Admits(conf, o) && mru == Number(o.data))
  {
    hide Judge, Admits, LearnAll, Number, GetShort;
    MruOnlyShrinks(conf, Forgotten(conf, was), os);
    forall o: Option | o.kind == 1
      ensures Judge(conf, o).Ack? <==> Admits(conf, o)
      ensures Admits(conf, o) ==> |o.data| == 2 && GetShort(o.data) == Number(o.data)
    {
      Verdicts(conf, o);
      Numbers(o.data);
      if Admits(conf, o) {
        MruSized(conf, o);
      }
    }
  }

  lemma MruSized(conf: Conf, o: Option)
    requires o.kind == 1 && Admits(conf, o)
    ensures |o.data| == 2
  {
  }
}
