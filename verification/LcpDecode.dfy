/** Decoding the peer's Configure-Request: the loop that fills the answers and notes what the peer
    may do. */
module LcpDecode {
  import opened FsmOptions
  import opened LcpOptions

  /** What we know of the peer. */
  datatype Peer = Peer(mru: nat, accmap: Long, acfComp: bool, protoComp: bool, magic: Long, auth: Short, alg: Octet,
                       mrru: nat, shortSeq: bool, discrim: Octets)

  /** The peer as every request finds it; only its endpoint discriminator is kept. */
  function Forgotten(conf: Conf, p: Peer): Peer {
    Peer(conf.mtu, LONG - 1, false, false, 0, 0, 0, 0, false, p.discrim)
  }

  /** What an acknowledged option tells. */
  function Learn(p: Peer, o: Option): Peer
    requires WellSized(o)
  {
    if o.kind == MRU then p.(mru := if GetShort(o.data) < p.mru then GetShort(o.data) else p.mru)
    else if o.kind == ACCMAP then p.(accmap := GetLong(o.data))
    else if o.kind == AUTHPROTO then
      p.(auth := GetShort(o.data), alg := if GetShort(o.data) == CHAP && |o.data| > 2 then o.data[2] else p.alg)
    else if o.kind == MRRU then p.(mrru := GetShort(o.data))
    else if o.kind == SHORTSEQNUM then p.(shortSeq := true)
    else if o.kind == ENDPOINTDISC then p.(discrim := o.data)
    else if o.kind == MAGICNUM then p.(magic := GetLong(o.data))
    else if o.kind == PROTOCOMP then p.(protoComp := true)
    else if o.kind == ACFCOMP then p.(acfComp := true)
    else p
  }

  function LearnAll(conf: Conf, p: Peer, os: seq<Option>): Peer
    decreases |os|
  {
    if os == [] then p
    else LearnAll(conf, if Judge(conf, os[0]).Ack? then Learn(p, os[0]) else p, os[1..])
  }

  /** The peer's MRU is never taken above our own limit, and is the least it asked for. */
  lemma {:induction false} MruOnlyShrinks(conf: Conf, p: Peer, os: seq<Option>)
    ensures LearnAll(conf, p, os).mru <= p.mru
    ensures LearnAll(conf, p, os).mru == p.mru
      || exists o | o in os :: o.kind == MRU && Judge(conf, o).Ack? && GetShort(o.data) == LearnAll(conf, p, os).mru
    ensures forall o | o in os :: o.kind == MRU && Judge(conf, o).Ack? ==> LearnAll(conf, p, os).mru <= GetShort(o.data)
    decreases |os|
  {
    if os != [] {
      assert os == [os[0]] + os[1..];
      MruOnlyShrinks(conf, if Judge(conf, os[0]).Ack? then Learn(p, os[0]) else p, os[1..]);
    }
  }

  /** The authentication the peer is held to is one we accept. */
  lemma {:induction false} AuthIsAcceptable(conf: Conf, p: Peer, os: seq<Option>)
    requires p.auth == 0 || exists a | a in conf.auths :: a.Proto() == p.auth && (p.auth == CHAP ==> a.Alg() == p.alg)
    ensures var q := LearnAll(conf, p, os);
      q.auth == 0 || exists a | a in conf.auths :: a.Proto() == q.auth && (q.auth == CHAP ==> a.Alg() == q.alg)
    decreases |os|
  {
    if os != [] {
      if os[0].kind == AUTHPROTO && Judge(conf, os[0]).Ack? {
        FoundIsAsked(os[0].data);
        var a := AskedAuth(os[0].data)[0];
        assert a in conf.auths;
      }
      AuthIsAcceptable(conf, if Judge(conf, os[0]).Ack? then Learn(p, os[0]) else p, os[1..]);
    }
  }

  lemma FoundIsAsked(d: Octets)
    requires |d| >= 2 && AskedAuth(d) != []
    ensures var a := AskedAuth(d)[0]; a.Proto() == GetShort(d) && (GetShort(d) == CHAP ==> |d| == 3 && a.Alg() == d[2])
  {
    FindFinds(GetShort(d), if GetShort(d) == CHAP then d[2] else 0, KNOWN);
  }

  lemma {:induction false} FindFinds(proto: Short, alg: Octet, auths: seq<Auth>)
    ensures var f := Find(proto, alg, auths); f != [] ==> f[0].Proto() == proto && f[0].Alg() == alg
  {
    if auths != [] {
      FindFinds(proto, alg, auths[1..]);
    }
  }

  class LcpDecoder {
    const conf: Conf
    const ack: AnswerBuffer
    const nak: AnswerBuffer
    const rej: AnswerBuffer
    var peer: Peer

    ghost predicate Valid()
      reads this, ack, nak, rej, ack.buf, nak.buf, rej.buf
    {
      && ack != nak && nak != rej && ack != rej && ack.buf != nak.buf && nak.buf != rej.buf && ack.buf != rej.buf
      && ack.Valid() && nak.Valid() && rej.Valid()
    }

    constructor (conf: Conf)
      ensures Valid() && this.conf == conf
      ensures fresh(ack) && fresh(nak) && fresh(rej) && fresh(ack.buf) && fresh(nak.buf) && fresh(rej.buf)
    {
      this.conf := conf;
      var a := new AnswerBuffer();
      var n := new AnswerBuffer();
      var r := new AnswerBuffer();
      ack, nak, rej := a, n, r;
      peer := Peer(conf.mtu, LONG - 1, false, false, 0, 0, 0, 0, false, []);
    }

    /** The options of a request. */
    method DecodeRequest(data: Octets) returns (reply: Reply)
      requires Valid()
      modifies this, ack, nak, rej, ack.buf, nak.buf, rej.buf
      ensures Valid() && reply == Answer(conf, data)
      ensures peer == LearnAll(conf, Forgotten(conf, old(peer)), Extract(data, MAX_OPTS).opts)
    {
      hide Judge, Acked, Naked, Rejected, PutAll, Put, Extract, LearnAll, Learn, Encode;
      ack.Reset();
      nak.Reset();
      rej.Reset();
      var list := ExtractOptions(data, MAX_OPTS);
      peer := Forgotten(conf, peer);
      var k := 0;
      ghost var start := peer;
      NothingDecoded(conf, start);
      assert list[..0] == [];
      while k < |list|
        invariant 0 <= k <= |list| && AllFit(list) && Valid()
        invariant AllFit(list[..k])
        invariant ack.Contents() == PutAll([], Acked(conf, list[..k]))
        invariant nak.Contents() == PutAll([], Naked(conf, list[..k]))
        invariant rej.Contents() == PutAll([], Rejected(conf, list[..k]))
        invariant peer == LearnAll(conf, start, list[..k])
      {
        DecodedSnoc(conf, list[..k], list[k], start);
        assert list[..k + 1] == list[..k] + [list[k]];
        DecodeOption(list[k]);
        k := k + 1;
      }
      assert list[..k] == list;
      if nak.size == 0 && rej.size == 0 {
        return ConfigAck(ack.buf[..ack.size]);
      }
      if rej.size != 0 {
        return ConfigRej(rej.buf[..rej.size]);
      }
      return ConfigNak(nak.buf[..nak.size]);
    }

    method DecodeOption(o: Option)
      requires Valid() && Fits(o)
      modifies this, ack, nak, rej, ack.buf, nak.buf, rej.buf
      ensures Valid()
      ensures peer == if Judge(conf, o).Ack? then Learn(old(peer), o) else old(peer)
      ensures ack.Contents() == if Judge(conf, o).Ack? then Put(old(ack.Contents()), o) else old(ack.Contents())
      ensures Judge(conf, o).Nak? ==> Fits(Judge(conf, o).o)
      ensures nak.Contents() == if Judge(conf, o).Nak? then Put(old(nak.Contents()), Judge(conf, o).o)
          else old(nak.Contents())
      ensures rej.Contents() == if Judge(conf, o).Rej? then Put(old(rej.Contents()), o) else old(rej.Contents())
    {
      hide Put, GetShort, GetLong, PutShort, PutLong, JudgeAuth;
      if !WellSized(o) {
        rej.Add(o);
      } else if o.kind == MRU {
        var mru := GetShort(o.data);
        if mru < MIN_MRU {
          nak.Add(Option(MRU, PutShort(MIN_MRU)));
        } else {
          if mru < peer.mru {
            peer := peer.(mru := mru);
          }
          ack.Add(o);
        }
      } else if o.kind == ACCMAP {
        peer := peer.(accmap := GetLong(o.data));
        ack.Add(o);
      } else if o.kind == AUTHPROTO {
        DecodeAuth(o);
      } else if o.kind == MRRU {
        var mrru := GetShort(o.data);
        if !conf.multilink {
          rej.Add(o);
        } else if mrru < MIN_MRU {
          nak.Add(Option(MRRU, PutShort(MIN_MRU)));
        } else {
          peer := peer.(mrru := mrru);
          ack.Add(o);
        }
      } else if o.kind == SHORTSEQNUM {
        if !conf.multilink || !conf.shortSeq {
          rej.Add(o);
        } else {
          peer := peer.(shortSeq := true);
          ack.Add(o);
        }
      } else if o.kind == ENDPOINTDISC {
        if |o.data| + 2 < 3 || |o.data| + 2 > MAX_DISCRIM {
          rej.Add(o);
        } else {
          peer := peer.(discrim := o.data);
          ack.Add(o);
        }
      } else if o.kind == MAGICNUM {
        DecodeMagic(o);
      } else if o.kind == PROTOCOMP && conf.protoComp {
        peer := peer.(protoComp := true);
        ack.Add(o);
      } else if o.kind == ACFCOMP && conf.acfComp {
        peer := peer.(acfComp := true);
        ack.Add(o);
      } else {
        rej.Add(o);
      }
    }

    method DecodeMagic(o: Option)
      requires Valid() && Fits(o) && o.kind == MAGICNUM && WellSized(o)
      modifies this, ack, nak, rej, ack.buf, nak.buf, rej.buf
      ensures Valid()
      ensures peer == if Judge(conf, o).Ack? then Learn(old(peer), o) else old(peer)
      ensures ack.Contents() == if Judge(conf, o).Ack? then Put(old(ack.Contents()), o) else old(ack.Contents())
      ensures Judge(conf, o).Nak? ==> Fits(Judge(conf, o).o)
      ensures nak.Contents() == if Judge(conf, o).Nak? then Put(old(nak.Contents()), Judge(conf, o).o)
          else old(nak.Contents())
      ensures rej.Contents() == if Judge(conf, o).Rej? then Put(old(rej.Contents()), o) else old(rej.Contents())
    {
      hide Put, GetLong, PutLong;
      var magic := GetLong(o.data);
      if conf.magic == 0 {
        rej.Add(o);
      } else if magic == conf.magic {
        nak.Add(Option(MAGICNUM, PutLong(LONG - 1 - magic)));
      } else {
        peer := peer.(magic := magic);
        ack.Add(o);
      }
    }

    method DecodeAuth(o: Option)
      requires Valid() && Fits(o) && o.kind == AUTHPROTO && WellSized(o)
      modifies this, ack, nak, rej, ack.buf, nak.buf, rej.buf
      ensures Valid()
      ensures peer == if Judge(conf, o).Ack? then Learn(old(peer), o) else old(peer)
      ensures ack.Contents() == if Judge(conf, o).Ack? then Put(old(ack.Contents()), o) else old(ack.Contents())
      ensures Judge(conf, o).Nak? ==> Fits(Judge(conf, o).o)
      ensures nak.Contents() == if Judge(conf, o).Nak? then Put(old(nak.Contents()), Judge(conf, o).o)
          else old(nak.Contents())
      ensures rej.Contents() == if Judge(conf, o).Rej? then Put(old(rej.Contents()), o) else old(rej.Contents())
    {
      hide Put, GetShort, Find;
      var proto := GetShort(o.data);
      var bogus := (proto == PAP && |o.data| != 2) || (proto == CHAP && |o.data| != 3);
      var asked: seq<Auth> := [];
      if !bogus {
        asked := Find(proto, if proto == CHAP then o.data[2] else 0, KNOWN);
      }
      if asked != [] && asked[0] in conf.auths {
        peer := peer.(auth := proto);
        if proto == CHAP {
          peer := peer.(alg := o.data[2]);
        }
        ack.Add(o);
        return;
      }
      var i := 0;
      assert PREFERRED[0..] == PREFERRED;
      while i < |PREFERRED|
        invariant 0 <= i <= |PREFERRED| && Valid()
        invariant FirstOf(PREFERRED[i..], conf.auths) == FirstOf(PREFERRED, conf.auths)
        invariant peer == old(peer) && ack.Contents() == old(ack.Contents())
        invariant nak.Contents() == old(nak.Contents()) && rej.Contents() == old(rej.Contents())
      {
        assert PREFERRED[i..][1..] == PREFERRED[i + 1..];
        if PREFERRED[i] in conf.auths {
          nak.Add(PREFERRED[i].Suggestion());
          return;
        }
        i := i + 1;
      }
      rej.Add(o);
    }
  }

  lemma NothingDecoded(conf: Conf, p: Peer)
    ensures Acked(conf, []) == [] && Naked(conf, []) == [] && Rejected(conf, []) == []
    ensures PutAll([], []) == [] && LearnAll(conf, p, []) == p
  {
  }

  lemma DecodedSnoc(conf: Conf, os: seq<Option>, o: Option, p: Peer)
    requires AllFit(os) && Fits(o)
    ensures AllFit(os + [o]) && (Judge(conf, o).Nak? ==> Fits(Judge(conf, o).o))
    ensures PutAll([], Acked(conf, os + [o]))
         == if Judge(conf, o).Ack? then Put(PutAll([], Acked(conf, os)), o) else PutAll([], Acked(conf, os))
    ensures PutAll([], Naked(conf, os + [o]))
         == if Judge(conf, o).Nak? then Put(PutAll([], Naked(conf, os)), Judge(conf, o).o)
             else PutAll([], Naked(conf, os))
    ensures PutAll([], Rejected(conf, os + [o]))
         == if Judge(conf, o).Rej? then Put(PutAll([], Rejected(conf, os)), o) else PutAll([], Rejected(conf, os))
    ensures LearnAll(conf, p, os + [o])
         == if Judge(conf, o).Ack? then Learn(LearnAll(conf, p, os), o) else LearnAll(conf, p, os)
  {
    hide Judge, PutAll, Put, LearnAll, Acked, Naked, Rejected;
    ListsSnoc(conf, os, o);
    LearnSnoc(conf, p, os, o);
    assert Acked(conf, os) + [] == Acked(conf, os);
    assert Naked(conf, os) + [] == Naked(conf, os);
    assert Rejected(conf, os) + [] == Rejected(conf, os);
    if Judge(conf, o).Ack? { PutAllSnoc([], Acked(conf, os), o); }
    if Judge(conf, o).Rej? { PutAllSnoc([], Rejected(conf, os), o); }
    if Judge(conf, o).Nak? {
      SuggestionsAreAcceptable(conf, o);
      PutAllSnoc([], Naked(conf, os), Judge(conf, o).o);
    }
  }

  lemma {:induction false} ListsSnoc(conf: Conf, os: seq<Option>, o: Option)
    requires AllFit(os) && Fits(o)
    ensures AllFit(os + [o])
    ensures Acked(conf, os + [o]) == Acked(conf, os) + if Judge(conf, o).Ack? then [o] else []
    ensures Naked(conf, os + [o]) == Naked(conf, os) + if Judge(conf, o).Nak? then [Judge(conf, o).o] else []
    ensures Rejected(conf, os + [o]) == Rejected(conf, os) + if Judge(conf, o).Rej? then [o] else []
  {
    hide Judge, Fits;
    if os == [] {
      assert os + [o] == [o] && [o][1..] == [];
    } else {
      ListsSnoc(conf, os[1..], o);
      assert (os + [o])[1..] == os[1..] + [o];
    }
  }

  lemma {:induction false} LearnSnoc(conf: Conf, p: Peer, os: seq<Option>, o: Option)
    ensures LearnAll(conf, p, os + [o])
         == if Judge(conf, o).Ack? then Learn(LearnAll(conf, p, os), o) else LearnAll(conf, p, os)
    decreases |os|
  {
    hide Learn;
    if os == [] {
      assert os + [o] == [o] && [o][1..] == [];
    } else {
      LearnSnoc(conf, if Judge(conf, os[0]).Ack? then Learn(p, os[0]) else p, os[1..], o);
      assert (os + [o])[1..] == os[1..] + [o];
    }
  }
}
