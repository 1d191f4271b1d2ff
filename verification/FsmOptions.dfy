/** Configuration options: writing them, taking them apart, and collecting answers to them. */
module FsmOptions {

  type Octet = x: nat | x < 256
  type Octets = seq<Octet>

  const MAX_OPTS: nat := 100
  const BUFFER: nat := 256

  datatype Option = Option(kind: Octet, data: Octets)

  /** The length octet counts kind and length too. */
  predicate Fits(o: Option) {
    |o.data| <= 253
  }

  predicate AllFit(os: seq<Option>) {
    forall i | 0 <= i < |os| :: Fits(os[i])
  }

  function Encode(o: Option): (s: Octets)
    requires Fits(o)
    ensures |s| == |o.data| + 2
  {
    [o.kind, |o.data| + 2] + o.data
  }

  function EncodeAll(os: seq<Option>): Octets
    requires AllFit(os)
  {
    if os == [] then [] else Encode(os[0]) + EncodeAll(os[1..])
  }

  /** Options taken from the front of a packet, and what cannot be taken. */
  datatype Parsed = Parsed(opts: seq<Option>, garbage: Octets)

  function Extract(data: Octets, max: nat): (p: Parsed)
    ensures |p.opts| <= max && AllFit(p.opts) && |p.garbage| <= |data|
    decreases max
  {
    if |data| < 2 || max == 0 || data[1] < 2 || data[1] > |data| then Parsed([], data)
    else
      var p := Extract(data[data[1]..], max - 1);
      Parsed([Option(data[0], data[2..data[1]])] + p.opts, p.garbage)
  }

  // ---- The two are inverse ----

  lemma EncodeCons(o: Option, os: seq<Option>)
    requires Fits(o) && AllFit(os)
    ensures AllFit([o] + os) && EncodeAll([o] + os) == Encode(o) + EncodeAll(os)
  {
    assert ([o] + os)[1..] == os;
  }

  lemma EncodedHead(o: Option, rest: Octets)
    requires Fits(o)
    ensures var d := Encode(o) + rest;
      |d| >= 2 && d[0] == o.kind && d[1] == |o.data| + 2 <= |d| && d[2..d[1]] == o.data && d[d[1]..] == rest
  {
  }

  /** Extraction takes back exactly the options written, if there are not too many. */
  lemma {:induction false} ExtractEncoded(os: seq<Option>, max: nat)
    requires AllFit(os) && |os| <= max
    ensures Extract(EncodeAll(os), max) == Parsed(os, [])
    decreases |os|
  {
    hide Encode, Fits;
    if os != [] {
      EncodedHead(os[0], EncodeAll(os[1..]));
      ExtractEncoded(os[1..], max - 1);
      assert os == [os[0]] + os[1..];
    }
  }

  /** Whatever the packet, the options extracted followed by the garbage are the packet. */
  lemma {:induction false} EncodeExtracted(data: Octets, max: nat)
    ensures EncodeAll(Extract(data, max).opts) + Extract(data, max).garbage == data
    decreases max
  {
    hide Encode;
    if |data| < 2 || max == 0 || data[1] < 2 || data[1] > |data| {
      assert [] + data == data;
    } else {
      var rest := data[data[1]..];
      EncodeExtracted(rest, max - 1);
      var o, p := Option(data[0], data[2..data[1]]), Extract(rest, max - 1);
      EncodeCons(o, p.opts);
      EncodedFront(data);
      Associate(Encode(o), EncodeAll(p.opts), p.garbage);
    }
  }

  lemma EncodedFront(data: Octets)
    requires |data| >= 2 && 2 <= data[1] <= |data|
    ensures Fits(Option(data[0], data[2..data[1]])) && Encode(Option(data[0], data[2..data[1]])) + data[data[1]..]
        == data
  {
    assert data[..data[1]] + data[data[1]..] == data;
  }

  /** An option's octets: kind, length with these two, data. */
  lemma EncodedOctets(o: Option)
    requires Fits(o)
    ensures var e := Encode(o); |e| == |o.data| + 2 && e[0] == o.kind && e[1] == |e| && e[2..] == o.data
  {
  }

  /** What is left over cannot be taken as an option, unless as many as allowed have been. */
  lemma {:induction false} GarbageIsStuck(data: Octets, max: nat)
    ensures var p := Extract(data, max); var g := p.garbage;
      |p.opts| == max || |g| < 2 || g[1] < 2 || g[1] > |g|
    decreases max
  {
    if !(|data| < 2 || max == 0 || data[1] < 2 || data[1] > |data|) {
      GarbageIsStuck(data[data[1]..], max - 1);
    }
  }

  lemma Associate(a: Octets, b: Octets, c: Octets)
    ensures a + b + c == a + (b + c)
  {
  }

  /** A packet is taken apart without garbage just if it is written from options, at most `max`. */
  lemma NoGarbage(data: Octets, max: nat)
    ensures Extract(data, max).garbage == [] <==> exists os: seq<Option> ::
        AllFit(os) && |os| <= max && EncodeAll(os) == data
  {
    EncodeExtracted(data, max);
    var p := Extract(data, max);
    if p.garbage == [] {
      assert EncodeAll(p.opts) + [] == EncodeAll(p.opts);
    }
    forall os: seq<Option> | AllFit(os) && |os| <= max && EncodeAll(os) == data ensures p.garbage == [] {
      ExtractEncoded(os, max);
    }
  }

  /** Encodings take at least two octets an option. */
  lemma {:induction false} EncodedSize(os: seq<Option>)
    requires AllFit(os)
    ensures |EncodeAll(os)| >= 2 * |os|
  {
    if os != [] {
      EncodedSize(os[1..]);
    }
  }

  // ---- On buffers ----

  /** Writes an option at a position of a buffer and returns the position after it. */
  method ConfValue(buf: array<Octet>, cp: nat, kind: Octet, data: Octets) returns (next: nat)
    requires |data| <= 253 && cp + |data| + 2 <= buf.Length
    modifies buf
    ensures next == cp + |data| + 2
    ensures buf[..next] == old(buf[..cp]) + Encode(Option(kind, data))
    ensures buf[next..] == old(buf[next..])
  {
    buf[cp] := kind;
    buf[cp + 1] := |data| + 2;
    next := cp + 2;
    var k := 0;
    while k < |data|
      invariant 0 <= k <= |data| && next == cp + 2 + k
      invariant forall i | 0 <= i < cp :: buf[i] == old(buf[i])
      invariant buf[cp] == kind && buf[cp + 1] == |data| + 2
      invariant forall i | 0 <= i < k :: buf[cp + 2 + i] == data[i]
      invariant forall i | next <= i < buf.Length :: buf[i] == old(buf[i])
    {
      buf[next] := data[k];
      next, k := next + 1, k + 1;
    }
  }

  method ExtractOptions(data: Octets, max: nat) returns (opts: seq<Option>)
    ensures opts == Extract(data, max).opts
  {
    hide AllFit, Extract;
    opts := [];
    var at, dlen := 0, |data|;
    ghost var all := Extract(data, max).opts;
    assert data[0..] == data && [] + all == all;
    while dlen >= 2 && |opts| < max
      invariant 0 <= at <= |data| && dlen == |data| - at && |opts| <= max
      invariant opts + Extract(data[at..], max - |opts|).opts == all
      decreases dlen
    {
      var len := data[at + 1];
      ExtractStep(data, at, max - |opts|);
      if len < 2 || len > dlen {
        assert opts + [] == opts;
        return;
      }
      var o := Option(data[at], data[at + 2..at + len]);
      Regroup(opts, o, Extract(data[at + len..], max - |opts| - 1).opts);
      opts := opts + [o];
      at, dlen := at + len, dlen - len;
    }
    ExtractDone(data[at..], max - |opts|);
    assert opts + [] == opts;
  }

  lemma Regroup(a: seq<Option>, o: Option, b: seq<Option>)
    ensures a + ([o] + b) == (a + [o]) + b
  {
  }

  lemma ExtractDone(data: Octets, max: nat)
    requires |data| < 2 || max == 0
    ensures Extract(data, max).opts == []
  {
  }

  lemma ExtractStep(data: Octets, at: nat, max: nat)
    requires at + 2 <= |data| && max > 0
    ensures var n := data[at + 1];
      Extract(data[at..], max).opts
      == if n < 2 || n > |data| - at then []
         else [Option(data[at], data[at + 2..at + n])] + Extract(data[at + n..], max - 1).opts
  {
    var d, n := data[at..], data[at + 1];
    assert d[1] == n && d[0] == data[at];
    if 2 <= n <= |d| {
      assert d[2..n] == data[at + 2..at + n];
      assert d[n..] == data[at + n..];
    }
  }

  // ---- Collecting answers ----

  /** What a buffer of 256 octets holds after one more option: the option is lost if it does not fit. */
  function Put(buf: Octets, o: Option): Octets
    requires Fits(o)
  {
    if |buf| + |o.data| + 2 > BUFFER then buf else buf + Encode(o)
  }

  function PutAll(buf: Octets, os: seq<Option>): (r: Octets)
    requires AllFit(os)
    ensures |buf| <= |r| && (|buf| <= BUFFER ==> |r| <= BUFFER)
    ensures buf == [] && os != [] ==> r != []
    decreases |os|
  {
    if os == [] then buf else PutAll(Put(buf, os[0]), os[1..])
  }

  /** Nothing is lost just if everything fits. */
  lemma {:induction false} PutAllFits(buf: Octets, os: seq<Option>)
    requires AllFit(os)
    ensures |buf| + |EncodeAll(os)| <= BUFFER ==> PutAll(buf, os) == buf + EncodeAll(os)
    ensures |buf| <= BUFFER && |buf| + |EncodeAll(os)| > BUFFER ==> |PutAll(buf, os)| < |buf| + |EncodeAll(os)|
    decreases |os|
  {
    hide Encode;
    if os == [] {
      assert buf + [] == buf;
    } else {
      PutAllFits(Put(buf, os[0]), os[1..]);
      assert buf + Encode(os[0]) + EncodeAll(os[1..]) == buf + (Encode(os[0]) + EncodeAll(os[1..]));
    }
  }

  /** `a` is `b` with some elements left out. */
  predicate Subsequence(a: seq<Option>, b: seq<Option>) {
    if a == [] then true
    else if b == [] then false
    else if a[0] == b[0] && Subsequence(a[1..], b[1..]) then true
    else Subsequence(a, b[1..])
  }

  /** What the buffer holds is always some of the options, in order and whole. */
  lemma {:induction false} PutAllKeepsOrder(buf: Octets, os: seq<Option>) returns (kept: seq<Option>)
    requires AllFit(os)
    ensures AllFit(kept) && Subsequence(kept, os) && PutAll(buf, os) == buf + EncodeAll(kept)
    decreases |os|
  {
    hide Encode;
    if os == [] {
      kept := [];
      assert buf + [] == buf;
    } else if |buf| + |os[0].data| + 2 > BUFFER {
      kept := PutAllKeepsOrder(buf, os[1..]);
    } else {
      var rest := PutAllKeepsOrder(buf + Encode(os[0]), os[1..]);
      kept := [os[0]] + rest;
      EncodeCons(os[0], rest);
      assert kept[1..] == rest;
      assert buf + Encode(os[0]) + EncodeAll(rest) == buf + (Encode(os[0]) + EncodeAll(rest));
    }
  }

  lemma {:induction false} PutAllSnoc(buf: Octets, os: seq<Option>, o: Option)
    requires AllFit(os) && Fits(o)
    ensures AllFit(os + [o]) && PutAll(buf, os + [o]) == Put(PutAll(buf, os), o)
    decreases |os|
  {
    hide Put;
    if os == [] {
      assert os + [o] == [o] && [o][1..] == [];
    } else {
      PutAllSnoc(Put(buf, os[0]), os[1..], o);
      assert (os + [o])[1..] == os[1..] + [o];
    }
  }

  /** A buffer for the options of an answer. */
  class AnswerBuffer {
    const buf: array<Octet>
    var size: nat

    ghost predicate Valid()
      reads this, buf
    {
      buf.Length == BUFFER && size <= BUFFER
    }

    ghost function Contents(): Octets
      requires Valid()
      reads this, buf
    {
      buf[..size]
    }

    constructor ()
      ensures Valid() && fresh(buf) && Contents() == []
    {
      buf := new Octet[BUFFER](_ => 0);
      size := 0;
    }

    method Reset()
      requires Valid()
      modifies this
      ensures Valid() && Contents() == []
    {
      size := 0;
    }

    method Add(o: Option)
      requires Valid() && Fits(o)
      modifies this, buf
      ensures Valid() && Contents() == Put(old(Contents()), o)
    {
      if size + |o.data| + 2 > BUFFER {
        return;
      }
      size := ConfValue(buf, size, o.kind, o.data);
    }
  }
}
