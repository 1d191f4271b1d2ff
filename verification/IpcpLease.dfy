/** Address leases over the life of IPCP: many bundles, interleaved. */
module IpcpLease {
  import opened IpPool

  /** Addresses of which the first `width` bits are those of `addr`; an empty address allows all. */
  datatype Range = Range(addr: Ip, width: nat)

  function Pow2(n: nat): nat {
    if n == 0 then 1 else 2 * Pow2(n - 1)
  }

  lemma {:induction false} Pow2Positive(n: nat)
    ensures Pow2(n) > 0
  {
    if n > 0 {
      Pow2Positive(n - 1);
    }
  }

  predicate InRange(r: Range, ip: Ip) {
    var rest := 32 - if r.width > 32 then 32 else r.width;
    Pow2Positive(rest);
    r.addr == 0 || ip / Pow2(rest) == r.addr / Pow2(rest)
  }

  /** A whole address allows only itself, unless it is 0. */
  lemma HostRange(addr: Ip, ip: Ip)
    ensures addr != 0 ==> (InRange(Range(addr, 32), ip) <==> ip == addr)
    ensures addr == 0 ==> InRange(Range(addr, 32), ip)
  {
    assert Pow2(0) == 1;
  }

  /** Configured pools and ranges of a bundle; "" is no pool. */
  datatype Conf = Conf(selfPool: string, peerPool: string, selfRange: Range, peerRange: Range, pretend: bool)

  /** What authentication chose for the peer; an empty range is none. */
  datatype Params = Params(range: Range, pool: string, used: bool)

  datatype Ipcp = Ipcp(conf: Conf, params: Params, selfAllow: Range, peerAllow: Range, want: Ip, peer: Ip,
                       selfUsed: bool, peerUsed: bool, configured: bool)

  datatype Answer = Ack | Nak(ip: Ip)

  // ---- Configure and UnConfigure ----

  function TakeSelf(b: Ipcp, pools: Pools): (Ipcp, Pools) {
    if b.conf.selfPool == "" then (b.(selfAllow := b.conf.selfRange), pools)
    else match Offer(pools, b.conf.selfPool)
      case None => (b, pools)
      case Some(ip) => (b.(selfAllow := Range(ip, 32), selfUsed := true), AfterGet(pools, b.conf.selfPool))
  }

  function TakePeer(b: Ipcp, pools: Pools): (Ipcp, Pools) {
    if b.params.range.addr != 0 then (b.(peerAllow := b.params.range), pools)
    else if b.params.pool != "" then
      match Offer(pools, b.params.pool)
      case None => (b, pools)
      case Some(ip) => (b.(peerAllow := Range(ip, 32), params := b.params.(used := true)),
          AfterGet(pools, b.params.pool))
    else if b.conf.peerPool != "" then
      match Offer(pools, b.conf.peerPool)
      case None => (b, pools)
      case Some(ip) => (b.(peerAllow := Range(ip, 32), peerUsed := true), AfterGet(pools, b.conf.peerPool))
    else (b.(peerAllow := b.conf.peerRange), pools)
  }

  function Configured(b: Ipcp, pools: Pools): (Ipcp, Pools) {
    var (b1, pools1) := TakeSelf(b, pools);
    var (b2, pools2) := TakePeer(b1, pools1);
    (b2.(want := b2.selfAllow.addr, peer := b2.peerAllow.addr, configured := true), pools2)
  }

  function FreeSelf(b: Ipcp, pools: Pools): (Ipcp, Pools) {
    if b.selfUsed then (b.(selfUsed := false), AfterFree(pools, b.conf.selfPool, b.want)) else (b, pools)
  }

  function FreePeer(b: Ipcp, pools: Pools): (Ipcp, Pools) {
    if b.params.used then (b.(params := b.params.(used := false)), AfterFree(pools, b.params.pool, b.peer))
    else if b.peerUsed then (b.(peerUsed := false), AfterFree(pools, b.conf.peerPool, b.peer))
    else (b, pools)
  }

  function UnConfigured(b: Ipcp, pools: Pools): (Ipcp, Pools) {
    var (b1, pools1) := FreeSelf(b, pools);
    var (b2, pools2) := FreePeer(b1, pools1);
    (b2.(configured := false), pools2)
  }

  // ---- Negotiation ----

  /** The peer asks for an address. */
  function Requested(b: Ipcp, ip: Ip): (Ipcp, Answer) {
    if (!InRange(b.peerAllow, ip) || ip == 0) && !b.conf.pretend then (b, Nak(b.peer))
    else (b.(peer := ip), Ack)
  }

  /** The peer proposes an address for us. */
  function Proposed(b: Ipcp, ip: Ip): Ipcp {
    if InRange(b.selfAllow, ip) || b.conf.pretend then b.(want := ip) else b
  }

  /** On reaching Opened, addresses outside what is allowed are replaced. */
  function Fixed(b: Ipcp): Ipcp {
    var b1 := if InRange(b.selfAllow, b.want) then b else b.(want := b.selfAllow.addr);
    if InRange(b1.peerAllow, b1.peer) || b1.peerAllow.addr == 0 then b1 else b1.(peer := b1.peerAllow.addr)
  }

  // ---- Leases held ----

  function Self(b: Ipcp, name: string, ip: Ip): nat {
    if b.selfUsed && b.conf.selfPool == name && b.want == ip then 1 else 0
  }

  function Peer(b: Ipcp, name: string, ip: Ip): nat {
    if b.params.used && b.params.pool == name && b.peer == ip then 1
    else if !b.params.used && b.peerUsed && b.conf.peerPool == name && b.peer == ip then 1
    else 0
  }

  /** How often a bundle holds an address of a pool: for itself, for its peer. */
  function Holds(b: Ipcp, name: string, ip: Ip): nat {
    Self(b, name, ip) + Peer(b, name, ip)
  }

  function Holders(bundles: seq<Ipcp>, name: string, ip: Ip): nat {
    if bundles == [] then 0 else Holds(bundles[0], name, ip) + Holders(bundles[1..], name, ip)
  }

  lemma {:induction false} HoldersUpdate(bundles: seq<Ipcp>, i: nat, b: Ipcp, name: string, ip: Ip)
    requires i < |bundles|
    ensures Holders(bundles[i := b], name, ip) ==
      Holders(bundles, name, ip) - Holds(bundles[i], name, ip) + Holds(b, name, ip)
    decreases i
  {
    hide Holds;
    var now := bundles[i := b];
    if i == 0 {
      assert now[1..] == bundles[1..];
    } else {
      assert now[1..] == bundles[1..][i - 1 := b];
      HoldersUpdate(bundles[1..], i - 1, b, name, ip);
    }
  }

  lemma {:induction false} HoldsIsCounted(bundles: seq<Ipcp>, i: nat, name: string, ip: Ip)
    requires i < |bundles|
    ensures Holders(bundles, name, ip) >= Holds(bundles[i], name, ip)
    ensures forall j | i < j < |bundles| ::
      Holders(bundles, name, ip) >= Holds(bundles[i], name, ip) + Holds(bundles[j], name, ip)
    decreases |bundles|
  {
    hide Holds;
    if i > 0 {
      HoldsIsCounted(bundles[1..], i - 1, name, ip);
      forall j | i < j < |bundles|
        ensures Holders(bundles, name, ip) >= Holds(bundles[i], name, ip) + Holds(bundles[j], name, ip)
      {
        assert bundles[1..][j - 1] == bundles[j] && bundles[1..][i - 1] == bundles[i];
      }
    } else {
      forall j | 0 < j < |bundles|
        ensures Holders(bundles, name, ip) >= Holds(bundles[0], name, ip) + Holds(bundles[j], name, ip)
      {
        HoldsIsCounted(bundles[1..], j - 1, name, ip);
      }
    }
  }

  /** What a lease implies: only the leased address is allowed, and it is the address negotiated. */
  ghost predicate Locked(b: Ipcp) {
    && (b.selfUsed ==> b.configured && b.want != 0 && b.selfAllow == Range(b.want, 32))
    && (b.params.used || b.peerUsed ==> b.configured && b.peer != 0 && b.peerAllow == Range(b.peer, 32))
    && !(b.params.used && b.peerUsed)
  }

  // ---- The system ----

  datatype Sys = Sys(pools: Pools, bundles: seq<Ipcp>)

  datatype Op =
    | Join(i: nat, range: Range, pool: string)        // a link joins: what authentication chose
    | Configure(i: nat)
    | UnConfigure(i: nat)
    | Request(i: nat, ip: Ip)
    | Propose(i: nat, ip: Ip)
    | LayerUp(i: nat)
    | AddRange(name: string, begin: Ip, end: Ip)

  predicate Enabled(s: Sys, op: Op) {
    match op
    case AddRange(_, _, _) => true
    case Join(i, _, _) => i < |s.bundles| && !s.bundles[i].configured
    case Configure(i) => i < |s.bundles| && !s.bundles[i].configured
    case _ => op.i < |s.bundles| && s.bundles[op.i].configured
  }

  function Put(s: Sys, i: nat, r: (Ipcp, Pools)): Sys
    requires i < |s.bundles|
  {
    Sys(r.1, s.bundles[i := r.0])
  }

  function Step(s: Sys, op: Op): Sys
    requires Enabled(s, op)
  {
    match op
    case AddRange(name, begin, end) => s.(pools := AfterAdd(s.pools, name, begin, end))
    case Join(i, range, pool) => Put(s, i, (s.bundles[i].(params := Params(range, pool, false)), s.pools))
    case Configure(i) => Put(s, i, Configured(s.bundles[i], s.pools))
    case UnConfigure(i) => Put(s, i, UnConfigured(s.bundles[i], s.pools))
    case Request(i, ip) => Put(s, i, (Requested(s.bundles[i], ip).0, s.pools))
    case Propose(i, ip) => Put(s, i, (Proposed(s.bundles[i], ip), s.pools))
    case LayerUp(i) => Put(s, i, (Fixed(s.bundles[i]), s.pools))
  }

  /** 0.0.0.0 is in no pool. */
  ghost predicate NoZero(pools: Pools) {
    forall name | name in pools :: !Listed(pools[name], 0)
  }

  ghost predicate Balanced(s: Sys) {
    forall name, ip :: Holders(s.bundles, name, ip) == if Used(s.pools, name, ip) then 1 else 0
  }

  /** An address is marked used just if exactly one IPCP holds it, once, and no IPCP holds one that
      is not marked. */
  ghost predicate Good(s: Sys) {
    && Valid(s.pools) && NoZero(s.pools) && Balanced(s)
    && (forall i | 0 <= i < |s.bundles| :: Locked(s.bundles[i]) && !s.bundles[i].conf.pretend)
  }

  /** A bundle and the pools, before and after: what the bundle holds more is what was marked. */
  ghost predicate Fair(b: Ipcp, pools: Pools, c: Ipcp, now: Pools) {
    forall name, ip ::
      Holds(c, name, ip) - Holds(b, name, ip) ==
        (if Used(now, name, ip) then 1 else 0) - (if Used(pools, name, ip) then 1 else 0)
  }

  lemma FairKeepsBalance(s: Sys, i: nat, c: Ipcp, now: Pools)
    requires i < |s.bundles| && Balanced(s) && Fair(s.bundles[i], s.pools, c, now)
    ensures Balanced(Sys(now, s.bundles[i := c]))
  {
    hide Holds, Used;
    forall name, ip ensures Holders(s.bundles[i := c], name, ip) == if Used(now, name, ip) then 1 else 0 {
      HoldersUpdate(s.bundles, i, c, name, ip);
    }
  }

  lemma FairTwice(b: Ipcp, pools: Pools, c: Ipcp, pools1: Pools, d: Ipcp, pools2: Pools)
    requires Fair(b, pools, c, pools1) && Fair(c, pools1, d, pools2)
    ensures Fair(b, pools, d, pools2)
  {
    hide Holds, Used;
  }

  // ---- Each step is fair ----

  lemma GetKeepsNoZero(pools: Pools, name: string)
    requires NoZero(pools)
    ensures NoZero(AfterGet(pools, name))
    ensures Offer(pools, name).Some? ==> Offer(pools, name).value != 0
  {
    if Offer(pools, name).Some? {
      var recs, n := pools[name], FirstFree(pools[name]);
      var now := recs[n := recs[n].(used := true)];
      assert recs[n].ip == Offer(pools, name).value;
      assert forall i | 0 <= i < |recs| :: now[i].ip == recs[i].ip;
    }
  }

  lemma FreeKeepsNoZero(pools: Pools, name: string, ip: Ip)
    requires NoZero(pools)
    ensures NoZero(AfterFree(pools, name, ip))
  {
    if name in pools && Position(pools[name], ip) < |pools[name]| {
      var recs, n := pools[name], Position(pools[name], ip);
      var now := recs[n := recs[n].(used := false)];
      assert forall i | 0 <= i < |recs| :: now[i].ip == recs[i].ip;
    }
  }

  lemma TakeSelfFair(b: Ipcp, pools: Pools)
    requires Valid(pools) && !b.selfUsed
    ensures var (c, now) := TakeSelf(b, pools); Valid(now) && Fair(b, pools, c.(want := c.selfAllow.addr), now)
  {
    hide Used, Valid, Offer, AfterGet;
    if b.conf.selfPool != "" && Offer(pools, b.conf.selfPool).Some? {
      GetLeases(pools, b.conf.selfPool);
    }
  }

  /** The pool the peer's address comes from, "" if from none. */
  function PeerPool(b: Ipcp): string {
    if b.params.range.addr != 0 then "" else if b.params.pool != "" then b.params.pool else b.conf.peerPool
  }

  lemma TakePeerFair(b: Ipcp, pools: Pools)
    requires Valid(pools) && !b.params.used && !b.peerUsed
    ensures var (c, now) := TakePeer(b, pools); Valid(now) && Fair(b, pools, c.(peer := c.peerAllow.addr), now)
  {
    hide Used, Valid, Offer, AfterGet;
    if PeerPool(b) != "" && Offer(pools, PeerPool(b)).Some? {
      GetLeases(pools, PeerPool(b));
    }
  }

  /** Configuring marks what the bundle then holds: the addresses it starts to negotiate with. */
  lemma ConfiguredMarks(b: Ipcp, pools: Pools)
    requires Valid(pools) && !b.selfUsed && !b.params.used && !b.peerUsed
    ensures var (c, now) := Configured(b, pools); Valid(now) && Fair(b, pools, c, now)
  {
    hide Used, Valid, Fair, Offer, AfterGet;
    TakeSelfFair(b, pools);
    var (b1, pools1) := TakeSelf(b, pools);
    var d1 := b1.(want := b1.selfAllow.addr);
    TakePeerFair(d1, pools1);
    var (b2, pools2) := TakePeer(d1, pools1);
    var d2 := b2.(peer := b2.peerAllow.addr);
    FairTwice(b, pools, d1, pools1, d2, pools2);
    FairSet(b, pools, d2, pools2, true);
  }

  lemma ConfiguredFair(b: Ipcp, pools: Pools)
    requires Valid(pools) && NoZero(pools) && Locked(b) && !b.configured
    ensures var (c, now) := Configured(b, pools);
      Valid(now) && NoZero(now) && Fair(b, pools, c, now) && Locked(c) && c.conf == b.conf
  {
    hide Used, Valid, NoZero, Fair, Offer, AfterGet;
    ConfiguredMarks(b, pools);
    GetKeepsNoZero(pools, b.conf.selfPool);
    var pools1 := TakeSelf(b, pools).1;
    GetKeepsNoZero(pools1, PeerPool(b));
  }

  lemma FairSet(b: Ipcp, pools: Pools, c: Ipcp, now: Pools, configured: bool)
    requires Fair(b, pools, c, now)
    ensures Fair(b, pools, c.(configured := configured), now)
  {
    hide Used;
    forall name, ip ensures Holds(c.(configured := configured), name, ip) == Holds(c, name, ip) {
    }
  }

  lemma FreeSelfFair(b: Ipcp, pools: Pools)
    requires Valid(pools) && NoZero(pools) && (b.selfUsed ==> Used(pools, b.conf.selfPool, b.want))
    ensures var (c, now) := FreeSelf(b, pools); Valid(now) && NoZero(now) && Fair(b, pools, c, now)
  {
    hide Used, Valid, NoZero, AfterFree;
    FreeReleases(pools, b.conf.selfPool, b.want);
    FreeKeepsNoZero(pools, b.conf.selfPool, b.want);
  }

  lemma FreePeerFair(b: Ipcp, pools: Pools)
    requires Valid(pools) && NoZero(pools) && !(b.params.used && b.peerUsed)
    requires b.params.used ==> Used(pools, b.params.pool, b.peer)
    requires b.peerUsed ==> Used(pools, b.conf.peerPool, b.peer)
    ensures var (c, now) := FreePeer(b, pools); Valid(now) && NoZero(now) && Fair(b, pools, c, now)
  {
    hide Used, Valid, NoZero, AfterFree;
    var pool := if b.params.used then b.params.pool else b.conf.peerPool;
    FreeReleases(pools, pool, b.peer);
    FreeKeepsNoZero(pools, pool, b.peer);
  }

  /** What a bundle holds is marked used. */
  lemma HeldIsUsed(s: Sys, i: nat, name: string, ip: Ip)
    requires Balanced(s) && i < |s.bundles| && Holds(s.bundles[i], name, ip) > 0
    ensures Used(s.pools, name, ip) && Holds(s.bundles[i], name, ip) == 1
    ensures forall j | 0 <= j < |s.bundles| && j != i :: Holds(s.bundles[j], name, ip) == 0
  {
    hide Used, Holds;
    HoldsIsCounted(s.bundles, i, name, ip);
    forall j | 0 <= j < |s.bundles| && j != i ensures Holds(s.bundles[j], name, ip) == 0 {
      HoldsIsCounted(s.bundles, j, name, ip);
    }
  }

  lemma UnConfiguredFair(s: Sys, i: nat)
    requires Good(s) && i < |s.bundles|
    ensures var b := s.bundles[i]; var (c, now) := UnConfigured(b, s.pools);
      Valid(now) && NoZero(now) && Fair(b, s.pools, c, now) && Locked(c) && c.conf == b.conf
  {
    hide Used, Valid, NoZero, Fair, AfterFree, Balanced;
    var b := s.bundles[i];
    if b.selfUsed { HeldIsUsed(s, i, b.conf.selfPool, b.want); }
    FreeSelfFair(b, s.pools);
    var (b1, pools1) := FreeSelf(b, s.pools);
    PeerStillUsed(s, i);
    FreePeerFair(b1, pools1);
    var (b2, pools2) := FreePeer(b1, pools1);
    FairTwice(b, s.pools, b1, pools1, b2, pools2);
    FairSet(b, s.pools, b2, pools2, false);
  }

  /** Freeing the address of one's own leaves the peer's alone: they are different leases. */
  lemma PeerStillUsed(s: Sys, i: nat)
    requires Good(s) && i < |s.bundles|
    ensures var b := s.bundles[i]; var now := FreeSelf(b, s.pools).1;
      && (b.params.used ==> Used(now, b.params.pool, b.peer))
      && (b.peerUsed ==> Used(now, b.conf.peerPool, b.peer))
  {
    hide Used, Valid, NoZero, AfterFree, Balanced;
    var b := s.bundles[i];
    FreeReleases(s.pools, b.conf.selfPool, b.want);
    if b.params.used { HeldIsUsed(s, i, b.params.pool, b.peer); }
    if b.peerUsed { HeldIsUsed(s, i, b.conf.peerPool, b.peer); }
  }

  /** Negotiation cannot move a leased address, unless pretending is on. */
  lemma NegotiationKeepsLease(b: Ipcp, c: Ipcp, ip: Ip)
    requires Locked(b) && !b.conf.pretend
    requires c == Requested(b, ip).0 || c == Proposed(b, ip) || c == Fixed(b)
    ensures Locked(c) && c.conf == b.conf
    ensures forall name, a :: Holds(c, name, a) == Holds(b, name, a)
  {
    hide InRange;
    HostRange(b.want, ip);
    HostRange(b.want, b.want);
    HostRange(b.peer, ip);
    HostRange(b.peer, b.peer);
  }

  lemma FairIfSame(b: Ipcp, c: Ipcp, pools: Pools)
    requires forall name, a :: Holds(c, name, a) == Holds(b, name, a)
    ensures Fair(b, pools, c, pools)
  {
    hide Holds, Used;
  }

  /** Ranges added do not reach 0.0.0.0. */
  predicate Clean(op: Op) {
    op.AddRange? ==> !InRun(op.begin, 0, RangeSize(op.begin, op.end), 0)
  }

  lemma AddGood(s: Sys, name: string, begin: Ip, end: Ip)
    requires Good(s) && !InRun(begin, 0, RangeSize(begin, end), 0)
    ensures Good(Step(s, AddRange(name, begin, end)))
  {
    hide Used, AfterAdd, Locked, Holders, RangeSize, InRun, Listed, Valid;
    AddExtends(s.pools, name, begin, end);
    AddKeepsOthers(s.pools, name, begin, end);
  }

  lemma AddKeepsOthers(pools: Pools, name: string, begin: Ip, end: Ip)
    ensures var now := AfterAdd(pools, name, begin, end);
      && (forall n | n in now && n != name :: n in pools && now[n] == pools[n])
      && (RangeSize(begin, end) > MAX_RANGE ==> now == pools)
  {
  }

  lemma StepGood(s: Sys, op: Op)
    requires Good(s) && Enabled(s, op) && Clean(op)
    ensures Good(Step(s, op))
  {
    hide Used, Valid, NoZero, Balanced, Fair, Holds, Locked, AfterAdd, Configured, UnConfigured, Requested, Proposed,
        Fixed;
    if op.AddRange? {
      AddGood(s, op.name, op.begin, op.end);
    } else {
      var b := s.bundles[op.i];
      var r := StepBundle(s, op);
      FairKeepsBalance(s, op.i, r.0, r.1);
    }
  }

  lemma StepBundle(s: Sys, op: Op) returns (r: (Ipcp, Pools))
    requires Good(s) && Enabled(s, op) && !op.AddRange?
    ensures Step(s, op) == Put(s, op.i, r)
    ensures Valid(r.1) && NoZero(r.1) && Fair(s.bundles[op.i], s.pools, r.0, r.1)
    ensures Locked(r.0) && r.0.conf == s.bundles[op.i].conf
  {
    hide Used, Valid, NoZero, Balanced, Fair, Configured, UnConfigured, Requested, Proposed, Fixed;
    var b := s.bundles[op.i];
    match op {
      case Join(i, range, pool) =>
        r := (b.(params := Params(range, pool, false)), s.pools);
        FairIfSame(b, r.0, s.pools);
      case Configure(i) =>
        r := Configured(b, s.pools);
        ConfiguredFair(b, s.pools);
      case UnConfigure(i) =>
        r := UnConfigured(b, s.pools);
        UnConfiguredFair(s, i);
      case Request(i, ip) =>
        r := (Requested(b, ip).0, s.pools);
        NegotiationKeepsLease(b, r.0, ip);
        FairIfSame(b, r.0, s.pools);
      case Propose(i, ip) =>
        r := (Proposed(b, ip), s.pools);
        NegotiationKeepsLease(b, r.0, ip);
        FairIfSame(b, r.0, s.pools);
      case LayerUp(i) =>
        r := (Fixed(b), s.pools);
        NegotiationKeepsLease(b, r.0, 0);
        FairIfSame(b, r.0, s.pools);
    }
  }

  // ---- Whole runs ----

  ghost predicate Runs(s: Sys, ops: seq<Op>, t: Sys)
    decreases |ops|
  {
    if ops == [] then t == s else Enabled(s, ops[0]) && Runs(Step(s, ops[0]), ops[1..], t)
  }

  /** Leases are conserved over any interleaving. */
  lemma {:induction false} LeasesConserved(s: Sys, ops: seq<Op>, t: Sys)
    requires Good(s) && Runs(s, ops, t) && forall op | op in ops :: Clean(op)
    ensures Good(t)
    decreases |ops|
  {
    hide Good, Step, Enabled, Clean;
    if ops != [] {
      StepGood(s, ops[0]);
      LeasesConserved(Step(s, ops[0]), ops[1..], t);
    }
  }

  /** Whatever has happened, once no IPCP is configured every address is free. */
  lemma NothingLeaks(s: Sys, name: string, ip: Ip)
    requires Good(s) && forall b | b in s.bundles :: !b.configured
    ensures !Used(s.pools, name, ip)
  {
    hide Used, Valid, NoZero;
    forall i | 0 <= i < |s.bundles| ensures Holds(s.bundles[i], name, ip) == 0 {
      assert s.bundles[i] in s.bundles;
    }
    NobodyHolds(s.bundles, name, ip);
  }

  lemma {:induction false} NobodyHolds(bundles: seq<Ipcp>, name: string, ip: Ip)
    requires forall i | 0 <= i < |bundles| :: Holds(bundles[i], name, ip) == 0
    ensures Holders(bundles, name, ip) == 0
  {
    if bundles != [] {
      forall i | 0 <= i < |bundles| - 1 ensures Holds(bundles[1..][i], name, ip) == 0 {
        assert bundles[1..][i] == bundles[i + 1];
      }
      NobodyHolds(bundles[1..], name, ip);
    }
  }

  /** A used address has exactly one holder. */
  lemma UsedHasHolder(s: Sys, name: string, ip: Ip) returns (i: nat)
    requires Good(s) && Used(s.pools, name, ip)
    ensures i < |s.bundles| && Holds(s.bundles[i], name, ip) == 1
    ensures forall j | 0 <= j < |s.bundles| && j != i :: Holds(s.bundles[j], name, ip) == 0
  {
    hide Used, Valid, NoZero, Holds, Locked;
    if forall k | 0 <= k < |s.bundles| :: Holds(s.bundles[k], name, ip) == 0 {
      NobodyHolds(s.bundles, name, ip);
    }
    i :| 0 <= i < |s.bundles| && Holds(s.bundles[i], name, ip) != 0;
    HeldIsUsed(s, i, name, ip);
  }

  /** Bundles as they are created, and no pool yet: a good start. */
  lemma StartIsGood(bundles: seq<Ipcp>)
    requires forall i | 0 <= i < |bundles| :: Unused(bundles[i]) && !bundles[i].conf.pretend
    ensures Good(Sys(map[], bundles))
  {
    forall name, ip ensures Holders(bundles, name, ip) == 0 {
      forall i | 0 <= i < |bundles| ensures Holds(bundles[i], name, ip) == 0 {
        assert Unused(bundles[i]);
      }
      NobodyHolds(bundles, name, ip);
    }
  }

  /** Not configured, and nothing leased. */
  predicate Unused(b: Ipcp) {
    !b.configured && !b.selfUsed && !b.params.used && !b.peerUsed
  }

  /** From there leases are conserved over any interleaving in which no pool is given 0.0.0.0. */
  lemma LeasesConservedFromStart(bundles: seq<Ipcp>, ops: seq<Op>, t: Sys)
    requires forall i | 0 <= i < |bundles| :: Unused(bundles[i]) && !bundles[i].conf.pretend
    requires Runs(Sys(map[], bundles), ops, t) && forall op | op in ops :: Clean(op)
    ensures Good(t)
  {
    StartIsGood(bundles);
    LeasesConserved(Sys(map[], bundles), ops, t);
  }

  // ---- IPCP, updated in place ----

  class IpcpState {
    const conf: Conf
    var params: Params
    var selfAllow: Range
    var peerAllow: Range
    var want: Ip
    var peer: Ip
    var selfUsed: bool
    var peerUsed: bool
    var configured: bool

    ghost function Abs(): Ipcp
      reads this
    {
      Ipcp(conf, params, selfAllow, peerAllow, want, peer, selfUsed, peerUsed, configured)
    }

    constructor (conf: Conf)
      ensures this.conf == conf && Unused(Abs())
    {
      this.conf, params := conf, Params(Range(0, 0), "", false);
      selfAllow, peerAllow, want, peer := Range(0, 0), Range(0, 0), 0, 0;
      selfUsed, peerUsed, configured := false, false, false;
    }

    method Configure(pools: IpPools)
      modifies this, pools
      ensures (Abs(), pools.pools) == Configured(old(Abs()), old(pools.pools))
    {
      if conf.selfPool != "" {
        var ip := pools.Get(conf.selfPool);
        if ip.Some? {
          selfAllow := Range(ip.value, 32);
          selfUsed := true;
        }
      } else {
        selfAllow := conf.selfRange;
      }
      if params.range.addr != 0 {
        peerAllow := params.range;
      } else if params.pool != "" {
        var ip := pools.Get(params.pool);
        if ip.Some? {
          peerAllow := Range(ip.value, 32);
          params := params.(used := true);
        }
      } else if conf.peerPool != "" {
        var ip := pools.Get(conf.peerPool);
        if ip.Some? {
          peerAllow := Range(ip.value, 32);
          peerUsed := true;
        }
      } else {
        peerAllow := conf.peerRange;
      }
      want, peer, configured := selfAllow.addr, peerAllow.addr, true;
    }

    method UnConfigure(pools: IpPools)
      modifies this, pools
      ensures (Abs(), pools.pools) == UnConfigured(old(Abs()), old(pools.pools))
    {
      if selfUsed {
        pools.Free(conf.selfPool, want);
        selfUsed := false;
      }
      if params.used {
        pools.Free(params.pool, peer);
        params := params.(used := false);
      } else if peerUsed {
        pools.Free(conf.peerPool, peer);
        peerUsed := false;
      }
      configured := false;
    }

    /** The peer's address option, in a Configure-Request. */
    method DecodeRequest(ip: Ip) returns (answer: Answer)
      modifies this
      ensures (Abs(), answer) == Requested(old(Abs()), ip)
    {
      if !InRange(peerAllow, ip) || ip == 0 {
        if conf.pretend {
          peer := ip;
          return Ack;
        }
        return Nak(peer);
      }
      peer := ip;
      return Ack;
    }

    /** Our address option, in a Configure-Nak. */
    method DecodeNak(ip: Ip)
      modifies this
      ensures Abs() == Proposed(old(Abs()), ip)
    {
      if InRange(selfAllow, ip) {
        want := ip;
      } else if conf.pretend {
        want := ip;
      }
    }

    method FixAddresses()
      modifies this
      ensures Abs() == Fixed(old(Abs()))
    {
      if !InRange(selfAllow, want) {
        want := selfAllow.addr;
      }
      if !InRange(peerAllow, peer) && peerAllow.addr != 0 {
        peer := peerAllow.addr;
      }
    }
  }
}
