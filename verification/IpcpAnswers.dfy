/** What IPCP answers, and which addresses it starts from and settles on. */
module IpcpAnswers {
  import opened IpPool
  import opened IpcpLease

  /** How many addresses share their first `width` bits. */
  function Block(width: nat): (n: nat)
    ensures n > 0
  {
    Pow2Positive(32 - if width > 32 then 32 else width);
    Pow2(32 - if width > 32 then 32 else width)
  }

  lemma Blocks()
    ensures Block(32) == 1 && Block(24) == 256 && Block(16) == 65536 && Block(8) == 0x100_0000 && Block(0) == SPACE
  {
    assert Pow2(4) == 16 && Pow2(8) == 256 && Pow2(16) == 65536 by {
      PowerDoubles(4, 4);
      PowerDoubles(8, 8);
    }
    PowerDoubles(8, 16);
    PowerDoubles(16, 16);
  }

  lemma {:induction false} PowerDoubles(a: nat, b: nat)
    ensures Pow2(a + b) == Pow2(a) * Pow2(b)
  {
    if a > 0 {
      PowerDoubles(a - 1, b);
      assert Pow2(a + b) == 2 * (Pow2(a - 1) * Pow2(b)) == (2 * Pow2(a - 1)) * Pow2(b);
    }
  }

  /** A range is the aligned block of addresses around its own, or every address if that is 0. */
  lemma InRangeExactly(r: Range, ip: Ip)
    ensures InRange(r, ip) <==>
      var n := Block(r.width); r.addr == 0 || r.addr - r.addr % n <= ip < r.addr - r.addr % n + n
  {
    Aligned(r.addr, ip, Block(r.width));
  }

  lemma Aligned(a: nat, ip: nat, n: nat)
    requires n > 0
    ensures ip / n == a / n <==> a - a % n <= ip < a - a % n + n
  {
    var q := a / n;
    assert a - a % n == n * q;
    if ip / n == q {
      assert ip == n * q + ip % n;
    }
    if n * q <= ip < n * q + n {
      Quotient(ip, n, q);
    }
  }

  lemma Quotient(x: nat, n: nat, q: nat)
    requires n > 0 && n * q <= x < n * q + n
    ensures x / n == q
  {
    var d := x / n;
    assert x == n * d + x % n;
    if d < q {
      Apart(n, d, q);
    } else if d > q {
      Apart(n, q, d);
    }
  }

  lemma Apart(n: nat, d: nat, q: nat)
    requires d < q
    ensures n * d + n <= n * q
  {
    assert n * (d + 1) <= n * q;
  }

  // ---- Requests ----

  /** The peer's address is acknowledged, and recorded, just if it is a real one in the range allowed or
      pretending is on; otherwise the address recorded before is suggested, and stays. */
  lemma RequestAnswered(b: Ipcp, ip: Ip)
    ensures var (c, answer) := Requested(b, ip);
      var fine := b.conf.pretend || (ip != 0 && InRange(b.peerAllow, ip));
      && answer == (if fine then Ack else Nak(b.peer))
      && c == b.(peer := if fine then ip else b.peer)
  {
  }

  /** Our own is what the peer offers just if it is in range or pretending is on. */
  lemma OfferTaken(b: Ipcp, ip: Ip)
    ensures Proposed(b, ip) ==
      b.(want := if b.conf.pretend || InRange(b.selfAllow, ip) then ip else b.want)
  {
  }

  /** The addresses recorded are within the ranges. */
  predicate Within(b: Ipcp) {
    InRange(b.selfAllow, b.want) && InRange(b.peerAllow, b.peer)
  }

  lemma OwnBlock(r: Range)
    ensures InRange(r, r.addr)
  {
  }

  /** Configuring records the addresses of the ranges; without pretending they stay within them. */
  lemma ConfiguredWithin(b: Ipcp, pools: Pools)
    ensures var c := Configured(b, pools).0; c.want == c.selfAllow.addr && c.peer == c.peerAllow.addr && Within(c)
  {
    hide InRange, Offer, AfterGet;
    var c := Configured(b, pools).0;
    OwnBlock(c.selfAllow);
    OwnBlock(c.peerAllow);
  }

  lemma NegotiationStaysWithin(b: Ipcp, ip: Ip)
    requires Within(b) && !b.conf.pretend
    ensures Within(Requested(b, ip).0) && Within(Proposed(b, ip))
  {
    hide InRange;
  }

  /** A peer that asks again for what was suggested is acknowledged. */
  lemma SuggestionIsAcked(b: Ipcp, ip: Ip)
    requires Within(b) && b.peer != 0
    ensures var (c, answer) := Requested(b, ip); answer.Nak? ==> Requested(c, answer.ip) == (c, Ack)
  {
    hide InRange;
  }

  /** Whatever was pretended, on reaching Opened the addresses are within the ranges, and those that were
      are not touched. */
  lemma OpenedWithin(b: Ipcp)
    ensures Within(Fixed(b))
    ensures Fixed(b).want == if InRange(b.selfAllow, b.want) then b.want else b.selfAllow.addr
    ensures Fixed(b).peer == if InRange(b.peerAllow, b.peer) then b.peer else b.peerAllow.addr
    ensures Fixed(b) == b.(want := Fixed(b).want, peer := Fixed(b).peer)
  {
    OwnBlock(b.selfAllow);
    OwnBlock(b.peerAllow);
  }

  // ---- Where the ranges come from ----

  /** Our range: the pool's next address if a pool is configured and has one, what it was if the pool has
      none, and the range configured if there is no pool. */
  lemma OwnRange(b: Ipcp, pools: Pools)
    ensures var c := Configured(b, pools).0;
      c.selfAllow ==
        if b.conf.selfPool == "" then b.conf.selfRange
        else if Offer(pools, b.conf.selfPool).Some? then Range(Offer(pools, b.conf.selfPool).value, 32)
        else b.selfAllow
  {
    hide Offer, AfterGet;
  }

  /** The peer's: what authentication says, then its pool, then the pool configured, then the range
      configured. Our own address is taken first. */
  lemma PeersRange(b: Ipcp, pools: Pools)
    ensures var c := Configured(b, pools).0;
      var left := if b.conf.selfPool != "" then AfterGet(pools, b.conf.selfPool) else pools;
      var pool := if b.params.pool != "" then b.params.pool else b.conf.peerPool;
      c.peerAllow ==
        if b.params.range.addr != 0 then b.params.range
        else if pool == "" then b.conf.peerRange
        else if Offer(left, pool).Some? then Range(Offer(left, pool).value, 32)
        else b.peerAllow
  {
    hide AfterGet;
    OfferNone(pools, b.conf.selfPool);
  }

  lemma OfferNone(pools: Pools, name: string)
    ensures Offer(pools, name).None? ==> AfterGet(pools, name) == pools
  {
  }

  /** A pool offers its first free address. */
  lemma OffersFirst(pools: Pools, name: string)
    requires Offer(pools, name).Some?
    ensures name in pools
    ensures exists n | 0 <= n < |pools[name]| ::
      pools[name][n] == Rec(Offer(pools, name).value, false) && forall i | 0 <= i < n :: pools[name][i].used
  {
    var n := FirstFree(pools[name]);
    assert pools[name][n] == Rec(Offer(pools, name).value, false);
  }
}
