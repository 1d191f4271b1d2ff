/** The peer's LCP options: what is acknowledged, corrected or rejected. */
module LcpOptions {
  import opened FsmOptions

  const VENDOR: Octet := 0
  const MRU: Octet := 1
  const ACCMAP: Octet := 2
  const AUTHPROTO: Octet := 3
  const MAGICNUM: Octet := 5
  const PROTOCOMP: Octet := 7
  const ACFCOMP: Octet := 8
  const CALLBACK: Octet := 13
  const MRRU: Octet := 17
  const SHORTSEQNUM: Octet := 18
  const ENDPOINTDISC: Octet := 19

  const MIN_MRU: nat := 296
  const MAX_DISCRIM: nat := 50
  const LONG: nat := 0x1_0000_0000

  const PAP: nat := 0xc023
  const CHAP: nat := 0xc223
  const EAP: nat := 0xc227

  // ---- Numbers in network order ----

  type Short = x: nat | x < 0x1_0000
  type Long = x: nat | x < LONG

  function GetShort(d: Octets): Short
    requires |d| >= 2
  {
    var high: int := d[0];
    high * 256 + d[1]
  }

  function PutShort(v: Short): (d: Octets)
    ensures |d| == 2 && GetShort(d) == v
  {
    [v / 256, v % 256]
  }

  function GetLong(d: Octets): Long
    requires |d| >= 4
  {
    var high: int := GetShort(d[..2]);
    high * 0x1_0000 + GetShort(d[2..])
  }

  function PutLong(v: Long): (d: Octets)
    ensures |d| == 4 && GetLong(d) == v
  {
    var d := PutShort(v / 0x1_0000) + PutShort(v % 0x1_0000);
    assert d[..2] == PutShort(v / 0x1_0000) && d[2..] == PutShort(v % 0x1_0000);
    d
  }

  // ---- Authentication protocols ----

  /** The protocols known: PAP, three kinds of CHAP, EAP. */
  datatype Auth = Pap | ChapMd5 | ChapMsV1 | ChapMsV2 | Eap {

    function Proto(): Short {
      match this case Pap => PAP case Eap => EAP case _ => CHAP
    }

    function Alg(): Octet {
      match this case ChapMd5 => 0x05 case ChapMsV1 => 0x80 case ChapMsV2 => 0x81 case _ => 0
    }

    function Suggestion(): (o: Option)
      ensures o.kind == AUTHPROTO && 2 <= |o.data| <= 3 && GetShort(o.data) == Proto()
    {
      Option(AUTHPROTO, PutShort(Proto()) + if Proto() == CHAP then [Alg()] else [])
    }
  }

  function Find(proto: Short, alg: Octet, auths: seq<Auth>): seq<Auth> {
    if auths == [] then []
    else if auths[0].Proto() == proto && auths[0].Alg() == alg then [auths[0]]
    else Find(proto, alg, auths[1..])
  }

  const KNOWN: seq<Auth> := [Pap, ChapMd5, ChapMsV1, ChapMsV2, Eap]

  /** What we suggest first: protocols that give encryption keys, then the most secure. */
  const PREFERRED: seq<Auth> := [ChapMsV2, ChapMsV1, ChapMd5, Pap, Eap]

  function FirstOf(auths: seq<Auth>, acceptable: set<Auth>): (r: seq<Auth>)
    ensures r != [] ==> |r| == 1 && r[0] in acceptable
    ensures r == [] ==> forall a | a in auths :: a !in acceptable
  {
    if auths == [] then [] else if auths[0] in acceptable then [auths[0]] else FirstOf(auths[1..], acceptable)
  }

  // ---- The verdict on one option ----

  /** What we accept; `magic` is our own magic number, or 0. */
  datatype Conf = Conf(auths: set<Auth>, multilink: bool, shortSeq: bool, protoComp: bool, acfComp: bool,
                       magic: Long, mtu: nat)

  datatype Verdict = Ack | Nak(o: Option) | Rej

  /** The kind is known and supported, and the length is within its limits. */
  predicate WellSized(o: Option) {
    var n := |o.data|;
    if o.kind == MRU || o.kind == MRRU then n == 2
    else if o.kind == ACCMAP || o.kind == MAGICNUM then n == 4
    else if o.kind == AUTHPROTO then n >= 2
    else if o.kind == PROTOCOMP || o.kind == ACFCOMP || o.kind == SHORTSEQNUM then n == 0
    else if o.kind == VENDOR then n >= 4
    else if o.kind == CALLBACK || o.kind == ENDPOINTDISC then n >= 1
    else false
  }

  function AskedAuth(d: Octets): seq<Auth>
    requires |d| >= 2
  {
    var proto := GetShort(d);
    if (proto == PAP && |d| != 2) || (proto == CHAP && |d| != 3) then []
    else Find(proto, if proto == CHAP then d[2] else 0, KNOWN)
  }

  function JudgeAuth(conf: Conf, d: Octets): Verdict
    requires |d| >= 2
  {
    var asked := AskedAuth(d);
    if asked != [] && asked[0] in conf.auths then Ack
    else
      var ours := FirstOf(PREFERRED, conf.auths);
      if ours == [] then Rej else Nak(ours[0].Suggestion())
  }

  function Judge(conf: Conf, o: Option): Verdict {
    if !WellSized(o) then Rej
    else if o.kind == MRU then
      if GetShort(o.data) < MIN_MRU then Nak(Option(MRU, PutShort(MIN_MRU))) else Ack
    else if o.kind == ACCMAP then Ack
    else if o.kind == AUTHPROTO then JudgeAuth(conf, o.data)
    else if o.kind == MRRU then
      if !conf.multilink then Rej
      else if GetShort(o.data) < MIN_MRU then Nak(Option(MRRU, PutShort(MIN_MRU))) else Ack
    else if o.kind == SHORTSEQNUM then if conf.multilink && conf.shortSeq then Ack else Rej
    else if o.kind == ENDPOINTDISC then if 3 <= |o.data| + 2 <= MAX_DISCRIM then Ack else Rej
    else if o.kind == MAGICNUM then
      if conf.magic == 0 then Rej
      else if GetLong(o.data) == conf.magic then Nak(Option(MAGICNUM, PutLong(LONG - 1 - conf.magic))) else Ack
    else if o.kind == PROTOCOMP then if conf.protoComp then Ack else Rej
    else if o.kind == ACFCOMP then if conf.acfComp then Ack else Rej
    else Rej
  }

  /** A suggestion made is acknowledged when the peer adopts it; it is of the same kind and at most
      one octet longer than what it corrects. */
  lemma SuggestionsAreAcceptable(conf: Conf, o: Option)
    requires Judge(conf, o).Nak?
    ensures var s := Judge(conf, o).o;
      s.kind == o.kind && Fits(s) && |s.data| <= |o.data| + 1 && Judge(conf, s).Ack?
  {
    if o.kind == AUTHPROTO {
      AuthSuggestion(conf, o);
    }
  }

  lemma AuthSuggestion(conf: Conf, o: Option)
    requires o.kind == AUTHPROTO && Judge(conf, o).Nak?
    ensures var s := Judge(conf, o).o;
      s.kind == o.kind && Fits(s) && |s.data| <= |o.data| + 1 && Judge(conf, s).Ack?
  {
    hide FirstOf, Find;
    var ours := FirstOf(PREFERRED, conf.auths)[0];
    var d := ours.Suggestion().data;
    assert Judge(conf, o) == JudgeAuth(conf, o.data) == Nak(ours.Suggestion());
    Known(ours);
    assert AskedAuth(d) == [ours];
    assert ours in conf.auths;
  }

  lemma Known(a: Auth)
    ensures Find(a.Proto(), a.Alg(), KNOWN) == [a]
  {
    assert KNOWN == [Pap] + ([ChapMd5] + ([ChapMsV1] + ([ChapMsV2] + ([Eap] + []))));
    FindCons(a, Eap, []);
    FindCons(a, ChapMsV2, [Eap] + []);
    FindCons(a, ChapMsV1, [ChapMsV2] + ([Eap] + []));
    FindCons(a, ChapMd5, [ChapMsV1] + ([ChapMsV2] + ([Eap] + [])));
    FindCons(a, Pap, [ChapMd5] + ([ChapMsV1] + ([ChapMsV2] + ([Eap] + []))));
  }

  lemma FindCons(a: Auth, b: Auth, rest: seq<Auth>)
    ensures Find(a.Proto(), a.Alg(), [b] + rest) == if a == b then [a] else Find(a.Proto(), a.Alg(), rest)
  {
    assert ([b] + rest)[1..] == rest;
  }

  // ---- The answer to a request ----

  function Acked(conf: Conf, os: seq<Option>): (r: seq<Option>)
    requires AllFit(os)
    ensures AllFit(r)
  {
    if os == [] then []
    else if Judge(conf, os[0]).Ack? then [os[0]] + Acked(conf, os[1..])
    else Acked(conf, os[1..])
  }

  function Naked(conf: Conf, os: seq<Option>): (r: seq<Option>)
    requires AllFit(os)
    ensures AllFit(r)
  {
    if os == [] then []
    else if Judge(conf, os[0]).Nak? then
      SuggestionsAreAcceptable(conf, os[0]); [Judge(conf, os[0]).o] + Naked(conf, os[1..])
    else Naked(conf, os[1..])
  }

  function Rejected(conf: Conf, os: seq<Option>): (r: seq<Option>)
    requires AllFit(os)
    ensures AllFit(r)
  {
    if os == [] then []
    else if Judge(conf, os[0]).Rej? then [os[0]] + Rejected(conf, os[1..])
    else Rejected(conf, os[1..])
  }

  datatype Reply = ConfigAck(body: Octets) | ConfigNak(body: Octets) | ConfigRej(body: Octets)

  function Choose(ack: Octets, nak: Octets, rej: Octets): Reply {
    if nak == [] && rej == [] then ConfigAck(ack)
    else if rej != [] then ConfigRej(rej)
    else ConfigNak(nak)
  }

  /** The answer to a request, given the octets after its header. */
  function Answer(conf: Conf, data: Octets): Reply {
    var os := Extract(data, MAX_OPTS).opts;
    Choose(PutAll([], Acked(conf, os)), PutAll([], Naked(conf, os)), PutAll([], Rejected(conf, os)))
  }

  /** Every option lands in exactly one of the three lists, in order. */
  lemma {:induction false} Partition(conf: Conf, os: seq<Option>)
    requires AllFit(os)
    ensures |Acked(conf, os)| + |Naked(conf, os)| + |Rejected(conf, os)| == |os|
    ensures forall o :: o in Acked(conf, os) <==> o in os && Judge(conf, o).Ack?
    ensures forall o :: o in Rejected(conf, os) <==> o in os && Judge(conf, o).Rej?
    ensures forall s :: s in Naked(conf, os) <==> exists o | o in os :: Judge(conf, o) == Nak(s)
    ensures Subsequence(Acked(conf, os), os) && Subsequence(Rejected(conf, os), os)
    ensures Naked(conf, os) == [] && Rejected(conf, os) == [] <==> Acked(conf, os) == os
  {
    hide Judge, Fits;
    if os != [] {
      Partition(conf, os[1..]);
      assert os == [os[0]] + os[1..];
      SubsequenceCons(Acked(conf, os[1..]), os);
      SubsequenceCons(Rejected(conf, os[1..]), os);
      assert forall o :: o in os <==> o == os[0] || o in os[1..];
    }
  }

  lemma SubsequenceCons(a: seq<Option>, b: seq<Option>)
    requires b != [] && Subsequence(a, b[1..])
    ensures Subsequence(a, b) && Subsequence([b[0]] + a, b)
  {
    assert ([b[0]] + a)[1..] == a;
  }

  /** A request is acknowledged just if every option taken from it is acceptable; the Ack is the
      request to the octet just if the request fits a buffer and holds no garbage. */
  lemma AckedWhole(conf: Conf, data: Octets)
    ensures var p := Extract(data, MAX_OPTS);
      && (Answer(conf, data).ConfigAck? <==> forall o | o in p.opts :: Judge(conf, o).Ack?)
      && (Answer(conf, data).ConfigAck? ==>
            (Answer(conf, data).body == data <==> |data| <= BUFFER && p.garbage == []))
  {
    hide Judge, Extract, Acked, Naked, Rejected, PutAll;
    var p := Extract(data, MAX_OPTS);
    Partition(conf, p.opts);
    NonePut(Naked(conf, p.opts));
    NonePut(Rejected(conf, p.opts));
    AllAcked(conf, p.opts);
    EncodeExtracted(data, MAX_OPTS);
    PutAllFits([], p.opts);
    PutAllBound(p.opts);
  }

  lemma NonePut(os: seq<Option>)
    requires AllFit(os)
    ensures PutAll([], os) == [] <==> os == []
  {
  }

  lemma PutAllBound(os: seq<Option>)
    requires AllFit(os)
    ensures |PutAll([], os)| <= BUFFER
  {
  }

  lemma {:induction false} AllAcked(conf: Conf, os: seq<Option>)
    requires AllFit(os)
    ensures Acked(conf, os) == os <==> forall o | o in os :: Judge(conf, o).Ack?
  {
    hide Judge;
    if os != [] {
      AllAcked(conf, os[1..]);
      assert os == [os[0]] + os[1..];
      AckedShorter(conf, os[1..]);
    }
  }

  lemma {:induction false} AckedShorter(conf: Conf, os: seq<Option>)
    requires AllFit(os)
    ensures |Acked(conf, os)| <= |os|
  {
    hide Judge;
    if os != [] {
      AckedShorter(conf, os[1..]);
    }
  }

  /** A Reject is made of options of the request, unchanged and in order, whatever did not fit. */
  lemma RejectInOrder(conf: Conf, data: Octets) returns (kept: seq<Option>)
    requires Answer(conf, data).ConfigRej?
    ensures AllFit(kept) && kept != [] && Answer(conf, data).body == EncodeAll(kept)
    ensures Subsequence(kept, Extract(data, MAX_OPTS).opts)
    ensures forall o | o in kept :: Judge(conf, o).Rej?
  {
    hide Judge, Extract, Acked, Naked, Rejected, PutAll, Subsequence;
    var os := Extract(data, MAX_OPTS).opts;
    var rs := Rejected(conf, os);
    Partition(conf, os);
    kept := PutAllKeepsOrder([], rs);
    assert [] + EncodeAll(kept) == EncodeAll(kept);
    SubsequenceMembers(kept, rs);
    SubsequenceTrans(kept, rs, os);
  }

  lemma {:induction false} SubsequenceMembers(a: seq<Option>, b: seq<Option>)
    requires Subsequence(a, b)
    ensures forall o | o in a :: o in b
    decreases |b|
  {
    if a != [] {
      assert b == [b[0]] + b[1..] && a == [a[0]] + a[1..];
      if a[0] == b[0] && Subsequence(a[1..], b[1..]) {
        SubsequenceMembers(a[1..], b[1..]);
      } else {
        SubsequenceMembers(a, b[1..]);
      }
    }
  }

  lemma {:induction false} SubsequenceTrans(a: seq<Option>, b: seq<Option>, c: seq<Option>)
    requires Subsequence(a, b) && Subsequence(b, c)
    ensures Subsequence(a, c)
    decreases |c|
  {
    if a != [] {
      if b[0] == c[0] && Subsequence(b[1..], c[1..]) {
        if a[0] == b[0] && Subsequence(a[1..], b[1..]) {
          SubsequenceTrans(a[1..], b[1..], c[1..]);
        } else {
          SubsequenceTrans(a, b[1..], c[1..]);
        }
      } else {
        SubsequenceTrans(a, b, c[1..]);
      }
    }
  }

  // ---- A peer that heeds the answers ----

  /** Leaves out what was rejected. */
  function HeedRej(os: seq<Option>, rejected: seq<Option>): (r: seq<Option>)
    requires AllFit(os)
    ensures AllFit(r)
  {
    if os == [] then []
    else if os[0] in rejected then HeedRej(os[1..], rejected)
    else [os[0]] + HeedRej(os[1..], rejected)
  }

  /** The first suggestion of a kind. */
  function Suggested(kind: Octet, suggestions: seq<Option>): seq<Option> {
    if suggestions == [] then []
    else if suggestions[0].kind == kind then [suggestions[0]]
    else Suggested(kind, suggestions[1..])
  }

  /** Adopts the suggestion made for each kind. */
  function HeedNak(os: seq<Option>, suggestions: seq<Option>): (r: seq<Option>)
    requires AllFit(os) && AllFit(suggestions)
    ensures AllFit(r)
  {
    if os == [] then []
    else
      var s := Suggested(os[0].kind, suggestions);
      SuggestedFits(os[0].kind, suggestions);
      [if s == [] then os[0] else s[0]] + HeedNak(os[1..], suggestions)
  }

  lemma {:induction false} SuggestedFits(kind: Octet, suggestions: seq<Option>)
    requires AllFit(suggestions)
    ensures var s := Suggested(kind, suggestions); s != [] ==> s[0] in suggestions && Fits(s[0]) && s[0].kind == kind
    ensures Suggested(kind, suggestions) == [] ==> forall t | t in suggestions :: t.kind != kind
  {
    if suggestions != [] {
      assert suggestions == [suggestions[0]] + suggestions[1..];
      SuggestedFits(kind, suggestions[1..]);
    }
  }

  /** Room for every option and one octet more each, as suggestions may need. */
  predicate Roomy(os: seq<Option>)
    requires AllFit(os)
  {
    |EncodeAll(os)| + |os| <= BUFFER
  }

  lemma {:induction false} RoomForAnswers(conf: Conf, os: seq<Option>)
    requires AllFit(os)
    ensures |EncodeAll(Acked(conf, os))| <= |EncodeAll(os)|
    ensures |EncodeAll(Rejected(conf, os))| <= |EncodeAll(os)|
    ensures |EncodeAll(Naked(conf, os))| <= |EncodeAll(os)| + |os|
  {
    hide Judge, Fits;
    if os != [] {
      var o, rest := os[0], os[1..];
      RoomForAnswers(conf, rest);
      if Judge(conf, o).Ack? {
        EncodeCons(o, Acked(conf, rest));
      } else if Judge(conf, o).Rej? {
        EncodeCons(o, Rejected(conf, rest));
      } else {
        SuggestionsAreAcceptable(conf, o);
        EncodeCons(Judge(conf, o).o, Naked(conf, rest));
      }
    }
  }

  /** In a roomy request nothing is lost from the answer. */
  lemma RoomyAnswer(conf: Conf, os: seq<Option>)
    requires AllFit(os) && Roomy(os)
    ensures Answer(conf, EncodeAll(os))
         == Choose(EncodeAll(Acked(conf, os)), EncodeAll(Naked(conf, os)), EncodeAll(Rejected(conf, os)))
  {
    hide Judge, Extract, EncodeAll, PutAll, Acked, Naked, Rejected;
    EncodedSize(os);
    ExtractEncoded(os, MAX_OPTS);
    RoomForAnswers(conf, os);
    PutAllFits([], Acked(conf, os));
    PutAllFits([], Naked(conf, os));
    PutAllFits([], Rejected(conf, os));
    Nil(EncodeAll(Acked(conf, os)));
    Nil(EncodeAll(Naked(conf, os)));
    Nil(EncodeAll(Rejected(conf, os)));
  }

  lemma Nil(s: Octets)
    ensures [] + s == s
  {
  }

  lemma {:induction false} HeedRejLeaves(conf: Conf, os: seq<Option>, rejected: seq<Option>)
    requires AllFit(os) && forall o | o in os :: o in rejected <==> Judge(conf, o).Rej?
    ensures forall o | o in HeedRej(os, rejected) :: o in os && !Judge(conf, o).Rej?
    ensures |HeedRej(os, rejected)| <= |os| && |EncodeAll(HeedRej(os, rejected))| <= |EncodeAll(os)|
  {
    hide Judge, Fits;
    if os != [] {
      assert os == [os[0]] + os[1..];
      HeedRejLeaves(conf, os[1..], rejected);
      if os[0] !in rejected {
        EncodeCons(os[0], HeedRej(os[1..], rejected));
      }
    }
  }

  /** A suggestion stands for an option of the request that it corrects. */
  ghost predicate Suggests(conf: Conf, suggestions: seq<Option>) {
    && AllFit(suggestions)
    && forall s | s in suggestions :: Judge(conf, s).Ack?
  }

  /** Every option not acceptable is corrected. */
  ghost predicate Corrects(conf: Conf, os: seq<Option>, suggestions: seq<Option>) {
    forall o | o in os :: Judge(conf, o).Ack? || exists s | s in suggestions :: s.kind == o.kind
  }

  lemma {:induction false} HeedNakAccepts(conf: Conf, os: seq<Option>, suggestions: seq<Option>)
    requires AllFit(os) && Suggests(conf, suggestions) && Corrects(conf, os, suggestions)
    ensures forall o | o in HeedNak(os, suggestions) :: Judge(conf, o).Ack?
  {
    hide Judge, Fits;
    if os != [] {
      assert os == [os[0]] + os[1..];
      assert Corrects(conf, os[1..], suggestions);
      HeedNakAccepts(conf, os[1..], suggestions);
      SuggestedFits(os[0].kind, suggestions);
    }
  }

  lemma SuggestionsCorrect(conf: Conf, os: seq<Option>)
    requires AllFit(os) && forall o | o in os :: !Judge(conf, o).Rej?
    ensures Suggests(conf, Naked(conf, os)) && Corrects(conf, os, Naked(conf, os))
  {
    hide Judge, Naked, Acked, Rejected;
    Partition(conf, os);
    var ss := Naked(conf, os);
    forall s | s in ss ensures Judge(conf, s).Ack? {
      var o :| o in os && Judge(conf, o) == Nak(s);
      SuggestionsAreAcceptable(conf, o);
    }
    forall o | o in os ensures Judge(conf, o).Ack? || exists s | s in ss :: s.kind == o.kind {
      if Judge(conf, o).Nak? {
        SuggestionsAreAcceptable(conf, o);
        assert Judge(conf, o).o in ss;
      }
    }
  }

  /** What the peer sends after an answer. */
  function Heed(os: seq<Option>, reply: Reply): (r: seq<Option>)
    requires AllFit(os)
    ensures AllFit(r)
  {
    var said := Extract(reply.body, MAX_OPTS).opts;
    match reply
    case ConfigAck(_) => os
    case ConfigRej(_) => HeedRej(os, said)
    case ConfigNak(_) => HeedNak(os, said)
  }

  lemma AnswerDecodes(os: seq<Option>)
    requires AllFit(os) && |EncodeAll(os)| <= BUFFER && |os| <= MAX_OPTS
    ensures Extract(EncodeAll(os), MAX_OPTS).opts == os
  {
    ExtractEncoded(os, MAX_OPTS);
  }

  lemma RoomyIsFew(os: seq<Option>)
    requires AllFit(os) && Roomy(os)
    ensures |os| <= 85
  {
    EncodedSize(os);
  }

  /** After one answer heeded nothing is rejected any more. */
  lemma FirstAnswer(conf: Conf, os: seq<Option>)
    requires AllFit(os) && Roomy(os)
    ensures var reply := Answer(conf, EncodeAll(os)); var next := Heed(os, reply);
      && (!reply.ConfigNak? ==> Roomy(next) && forall o | o in next :: !Judge(conf, o).Rej?)
      && (reply.ConfigNak? ==> forall o | o in os :: !Judge(conf, o).Rej?)
  {
    hide Judge, Extract, EncodeAll, Acked, Naked, Rejected, HeedRej, HeedNak;
    RoomyAnswer(conf, os);
    RoomyIsFew(os);
    Partition(conf, os);
    RoomForAnswers(conf, os);
    Empty(Rejected(conf, os));
    Empty(Naked(conf, os));
    AnswerDecodes(Rejected(conf, os));
    HeedRejLeaves(conf, os, Rejected(conf, os));
  }

  lemma Empty(os: seq<Option>)
    requires AllFit(os)
    ensures EncodeAll(os) == [] <==> os == []
  {
    EncodedSize(os);
  }

  /** Options of which none is rejected are acceptable after one Nak heeded. */
  lemma SecondAnswer(conf: Conf, os: seq<Option>)
    requires AllFit(os) && Roomy(os) && forall o | o in os :: !Judge(conf, o).Rej?
    ensures var reply := Answer(conf, EncodeAll(os));
      && !reply.ConfigRej? && (forall o | o in Heed(os, reply) :: Judge(conf, o).Ack?)
      && |EncodeAll(Heed(os, reply))| <= BUFFER && |Heed(os, reply)| <= MAX_OPTS
  {
    hide Judge, Extract, EncodeAll, Acked, Naked, Rejected, HeedRej, HeedNak;
    RoomyAnswer(conf, os);
    RoomyIsFew(os);
    Partition(conf, os);
    RoomForAnswers(conf, os);
    Empty(Rejected(conf, os));
    Empty(Naked(conf, os));
    NoneIn(Rejected(conf, os));
    AllAcked(conf, os);
    AnswerDecodes(Naked(conf, os));
    SuggestionsCorrect(conf, os);
    HeedNakAccepts(conf, os, Naked(conf, os));
    HeedNakSize(conf, os, Naked(conf, os));
  }

  /** Adopting suggestions lengthens each option by at most an octet. */
  lemma {:induction false} HeedNakSize(conf: Conf, os: seq<Option>, suggestions: seq<Option>)
    requires AllFit(os) && AllFit(suggestions) && forall o | o in os :: !Judge(conf, o).Rej?
    requires forall s | s in suggestions :: exists o :: Judge(conf, o) == Nak(s)
    ensures |HeedNak(os, suggestions)| == |os|
    ensures |EncodeAll(HeedNak(os, suggestions))| <= |EncodeAll(os)| + |os|
  {
    hide Judge, Fits;
    if os != [] {
      assert os == [os[0]] + os[1..];
      HeedNakSize(conf, os[1..], suggestions);
      var s := Suggested(os[0].kind, suggestions);
      SuggestedFits(os[0].kind, suggestions);
      if s == [] {
        EncodeCons(os[0], HeedNak(os[1..], suggestions));
      } else {
        var o :| Judge(conf, o) == Nak(s[0]);
        SameKindSize(conf, os[0], o, s[0]);
        EncodeCons(s[0], HeedNak(os[1..], suggestions));
      }
    }
  }

  lemma SameKindSize(conf: Conf, o: Option, corrected: Option, s: Option)
    requires !Judge(conf, o).Rej? && Judge(conf, corrected) == Nak(s) && s.kind == o.kind
    ensures |s.data| <= |o.data| + 1
  {
  }

  lemma NoneIn(os: seq<Option>)
    ensures (forall o :: o !in os) <==> os == []
  {
    assert os != [] ==> os[0] in os;
  }

  /** Negotiation with a peer that heeds converges: its third request at the latest is acknowledged. */
  lemma ThirdRequestIsAcked(conf: Conf, os: seq<Option>)
    requires AllFit(os) && Roomy(os)
    ensures
      var second := Heed(os, Answer(conf, EncodeAll(os)));
      var third := Heed(second, Answer(conf, EncodeAll(second)));
      Answer(conf, EncodeAll(third)) == ConfigAck(EncodeAll(third))
  {
    hide Judge, Extract, EncodeAll, Heed, Answer, Roomy;
    FirstAnswer(conf, os);
    var reply := Answer(conf, EncodeAll(os));
    var second := Heed(os, reply);
    if reply.ConfigNak? {
      SecondAnswer(conf, os);
      AcceptableIsAcked(conf, second);
      HeedAck(second, Answer(conf, EncodeAll(second)));
    } else {
      SecondAnswer(conf, second);
      AcceptableIsAcked(conf, Heed(second, Answer(conf, EncodeAll(second))));
    }
  }

  lemma HeedAck(os: seq<Option>, reply: Reply)
    requires AllFit(os) && reply.ConfigAck?
    ensures Heed(os, reply) == os
  {
  }

  lemma AcceptableIsAcked(conf: Conf, os: seq<Option>)
    requires AllFit(os) && forall o | o in os :: Judge(conf, o).Ack?
    requires |EncodeAll(os)| <= BUFFER && |os| <= MAX_OPTS
    ensures Answer(conf, EncodeAll(os)) == ConfigAck(EncodeAll(os))
  {
    hide Judge, Extract, EncodeAll, Answer;
    AckedWhole(conf, EncodeAll(os));
    ExtractEncoded(os, MAX_OPTS);
  }
}
