/** Leases when addresses move or run out: what is lost, and exactly when. */
module IpcpLedger {
  import opened IpPool
  import opened IpcpLease

  // ---- The ledger by what was leased ----

  /** A bundle as it would be had negotiation left its addresses alone. */
  function AsLeased(b: Ipcp): Ipcp {
    b.(want := b.selfAllow.addr, peer := b.peerAllow.addr)
  }

  function AllAsLeased(bundles: seq<Ipcp>): (r: seq<Ipcp>)
    ensures |r| == |bundles| && forall i | 0 <= i < |r| :: r[i] == AsLeased(bundles[i])
  {
    if bundles == [] then [] else [AsLeased(bundles[0])] + AllAsLeased(bundles[1..])
  }

  function Ideal(s: Sys): Sys {
    Sys(s.pools, AllAsLeased(s.bundles))
  }

  /** Leases belong to configured bundles and are of whole addresses. */
  predicate Tidy(b: Ipcp) {
    && (b.selfUsed ==> b.configured && b.selfAllow.width == 32)
    && (b.params.used || b.peerUsed ==> b.configured && b.peerAllow.width == 32)
    && !(b.params.used && b.peerUsed)
  }

  /** An address is marked used just if exactly one bundle was leased it and has not given it back. */
  ghost predicate Ledger(s: Sys) {
    Valid(s.pools) && Balanced(Ideal(s)) && forall i | 0 <= i < |s.bundles| :: Tidy(s.bundles[i])
  }

  /** What a bundle was leased, and what unconfiguring it gives back. */
  function Owed(b: Ipcp): set<(string, Ip)> {
    (if b.selfUsed then {(b.conf.selfPool, b.selfAllow.addr)} else {})
    + (if b.params.used then {(b.params.pool, b.peerAllow.addr)}
       else if b.peerUsed then {(b.conf.peerPool, b.peerAllow.addr)} else {})
  }

  function Freed(b: Ipcp): set<(string, Ip)> {
    (if b.selfUsed then {(b.conf.selfPool, b.want)} else {})
    + (if b.params.used then {(b.params.pool, b.peer)}
       else if b.peerUsed then {(b.conf.peerPool, b.peer)} else {})
  }

  lemma OwedIsHeld(b: Ipcp, name: string, ip: Ip)
    ensures (name, ip) in Owed(b) <==> Holds(AsLeased(b), name, ip) > 0
  {
  }

  lemma IdealUpdate(s: Sys, i: nat, c: Ipcp, now: Pools)
    requires i < |s.bundles|
    ensures Ideal(Sys(now, s.bundles[i := c])) == Sys(now, Ideal(s).bundles[i := AsLeased(c)])
  {
    assert AllAsLeased(s.bundles[i := c]) == AllAsLeased(s.bundles)[i := AsLeased(c)];
  }

  // ---- Unconfiguring ----

  /** Unconfiguring clears exactly the marks of the addresses recorded last. */
  lemma UnConfiguredClears(b: Ipcp, pools: Pools)
    requires Valid(pools)
    ensures Valid(UnConfigured(b, pools).1)
    ensures forall name: string, ip: Ip ::
      Used(UnConfigured(b, pools).1, name, ip) <==> Used(pools, name, ip) && (name, ip) !in Freed(b)
  {
    hide Used, Valid, AfterFree;
    FreeReleases(pools, b.conf.selfPool, b.want);
    var (b1, pools1) := FreeSelf(b, pools);
    FreeReleases(pools1, b.params.pool, b.peer);
    FreeReleases(pools1, b.conf.peerPool, b.peer);
  }

  /** Unconfiguring leaves a leased address marked exactly when it is not among those recorded last. */
  lemma LostExactlyWhen(s: Sys, i: nat, name: string, ip: Ip)
    requires Ledger(s) && i < |s.bundles| && (name, ip) in Owed(s.bundles[i])
    ensures Used(UnConfigured(s.bundles[i], s.pools).1, name, ip) <==> (name, ip) !in Freed(s.bundles[i])
  {
    hide Used, Holds, Holders, Tidy;
    OwedIsHeld(s.bundles[i], name, ip);
    HeldIsUsed(Ideal(s), i, name, ip);
    UnConfiguredClears(s.bundles[i], s.pools);
  }

  /** The ledger survives unconfiguring exactly when what is given back is what was leased. */
  lemma UnConfigureExactly(s: Sys, i: nat)
    requires Ledger(s) && Enabled(s, UnConfigure(i))
    ensures Ledger(Step(s, UnConfigure(i))) <==> Freed(s.bundles[i]) == Owed(s.bundles[i])
  {
    hide Used, Holds, Valid, UnConfigured, Owed, Freed, AllAsLeased, Tidy;
    var b := s.bundles[i];
    var (c, now) := UnConfigured(b, s.pools);
    UnConfiguredClears(b, s.pools);
    UnConfiguredTidy(b, s.pools);
    IdealUpdate(s, i, c, now);
    var t := Step(s, UnConfigure(i));
    forall name: string, ip: Ip
      ensures Holders(Ideal(t).bundles, name, ip)
           == (if Used(s.pools, name, ip) then 1 else 0) - (if (name, ip) in Owed(b) then 1 else 0)
      ensures (name, ip) in Owed(b) ==> Used(s.pools, name, ip)
    {
      HoldersUpdate(Ideal(s).bundles, i, AsLeased(c), name, ip);
      HoldsNothing(c, name, ip);
      OwedIsHeld(b, name, ip);
      if (name, ip) in Owed(b) {
        HeldIsUsed(Ideal(s), i, name, ip);
      }
    }
    if Freed(b) == Owed(b) {
      assert Balanced(Ideal(t));
    }
    if Ledger(t) {
      forall e | e in Owed(b) ensures e in Freed(b) {
        assert (e.0, e.1) in Owed(b);
        assert Holders(Ideal(t).bundles, e.0, e.1) == 0;
        assert !Used(now, e.0, e.1);
      }
      SameSize(s, i);
    }
  }

  lemma UnConfiguredTidy(b: Ipcp, pools: Pools)
    requires Tidy(b)
    ensures var c := UnConfigured(b, pools).0; Tidy(c) && !c.selfUsed && !c.params.used && !c.peerUsed
  {
  }

  lemma HoldsNothing(c: Ipcp, name: string, ip: Ip)
    requires !c.selfUsed && !c.params.used && !c.peerUsed
    ensures Holds(AsLeased(c), name, ip) == 0
  {
  }

  /** As many addresses are given back as were leased at most. */
  lemma SameSize(s: Sys, i: nat)
    requires Ledger(s) && i < |s.bundles| && forall e | e in Owed(s.bundles[i]) :: e in Freed(s.bundles[i])
    ensures Freed(s.bundles[i]) == Owed(s.bundles[i])
  {
    hide Used, Valid, Holders;
    var b := s.bundles[i];
    assert Tidy(b);
    if b.selfUsed && (b.params.used || b.peerUsed) {
      var pool := if b.params.used then b.params.pool else b.conf.peerPool;
      if b.conf.selfPool == pool && b.selfAllow.addr == b.peerAllow.addr {
        HeldIsUsed(Ideal(s), i, pool, b.selfAllow.addr);
        assert false;
      }
    }
  }

  // ---- Every other step ----

  /** Nothing else can upset the ledger, whatever is pretended and whatever the pools hold. */
  lemma OtherStepsKeepLedger(s: Sys, op: Op)
    requires Ledger(s) && Enabled(s, op) && !op.UnConfigure?
    ensures Ledger(Step(s, op))
  {
    hide Used, Valid, Balanced, Fair, Holds, Tidy, AllAsLeased, Configured, Requested, Proposed, Fixed, AfterAdd;
    if op.AddRange? {
      AddExtends(s.pools, op.name, op.begin, op.end);
      BalancedBy(Ideal(s), Ideal(Step(s, op)));
    } else {
      var b := s.bundles[op.i];
      if op.Configure? {
        var (c, now) := Configured(b, s.pools);
        NoLease(b);
        ConfiguredMarks(b, s.pools);
        ConfiguredAsLeased(b, s.pools);
        FairFrom(b, s.pools, c, now);
        IdealUpdate(s, op.i, c, now);
        FairKeepsBalance(Ideal(s), op.i, AsLeased(c), now);
      } else {
        var c := Step(s, op).bundles[op.i];
        TalkLeavesLease(b, op);
        FairIfSame(AsLeased(b), AsLeased(c), s.pools);
        IdealUpdate(s, op.i, c, s.pools);
        FairKeepsBalance(Ideal(s), op.i, AsLeased(c), s.pools);
      }
    }
  }

  lemma NoLease(b: Ipcp)
    requires Tidy(b) && !b.configured
    ensures !b.selfUsed && !b.params.used && !b.peerUsed
  {
  }

  lemma BalancedBy(s: Sys, t: Sys)
    requires Balanced(s) && t.bundles == s.bundles
    requires forall n, a :: Used(t.pools, n, a) <==> Used(s.pools, n, a)
    ensures Balanced(t)
  {
    hide Used, Holders;
  }

  lemma ConfiguredAsLeased(b: Ipcp, pools: Pools)
    requires Tidy(b) && !b.configured
    ensures var c := Configured(b, pools).0; AsLeased(c) == c && Tidy(c)
  {
    hide Offer, AfterGet;
  }

  /** A bundle without leases may be taken for itself as leased. */
  lemma FairFrom(b: Ipcp, pools: Pools, c: Ipcp, now: Pools)
    requires Fair(b, pools, c, now) && !b.selfUsed && !b.params.used && !b.peerUsed && AsLeased(c) == c
    ensures Fair(AsLeased(b), pools, AsLeased(c), now)
  {
    hide Used;
    forall name, ip ensures Holds(AsLeased(b), name, ip) == Holds(b, name, ip) {
    }
  }

  /** Negotiation moves addresses, never leases; joining happens between leases. */
  lemma TalkLeavesLease(b: Ipcp, op: Op)
    requires Tidy(b)
    requires op.Join? ==> !b.configured
    ensures forall c |
      || (op.Request? && c == Requested(b, op.ip).0) || (op.Propose? && c == Proposed(b, op.ip))
      || (op.LayerUp? && c == Fixed(b))
      || (op.Join? && c == b.(params := Params(op.range, op.pool, false))) ::
      Tidy(c) && forall name, a :: Holds(AsLeased(c), name, a) == Holds(AsLeased(b), name, a)
  {
  }

  /** Over any run, with any options and pools, the ledger holds as long as every unconfiguring gives
      back what was leased. */
  lemma {:induction false} LedgerKept(s: Sys, ops: seq<Op>, t: Sys)
    requires Ledger(s) && Runs(s, ops, t) && GivesBack(s, ops)
    ensures Ledger(t)
    decreases |ops|
  {
    hide Ledger, Step, Enabled, Freed, Owed;
    if ops != [] {
      StepExactly(s, ops[0]);
      LedgerKept(Step(s, ops[0]), ops[1..], t);
    }
  }

  ghost predicate GivesBack(s: Sys, ops: seq<Op>)
    decreases |ops|
  {
    ops != [] && Enabled(s, ops[0]) ==> Returns(s, ops[0]) && GivesBack(Step(s, ops[0]), ops[1..])
  }

  /** The one step that can fail, and its condition. */
  predicate Returns(s: Sys, op: Op)
    requires Enabled(s, op)
  {
    op.UnConfigure? ==> Freed(s.bundles[op.i]) == Owed(s.bundles[op.i])
  }

  lemma StepExactly(s: Sys, op: Op)
    requires Ledger(s) && Enabled(s, op)
    ensures Ledger(Step(s, op)) <==> Returns(s, op)
  {
    hide Ledger, Step, Freed, Owed;
    if op.UnConfigure? {
      UnConfigureExactly(s, op.i);
    } else {
      OtherStepsKeepLedger(s, op);
    }
  }

  /** The good states of a system that does not pretend are among these, and give back what is owed. */
  lemma GoodIsLedger(s: Sys)
    requires Good(s)
    ensures Ledger(s) && forall i | 0 <= i < |s.bundles| :: Freed(s.bundles[i]) == Owed(s.bundles[i])
  {
    hide Used, Valid, NoZero;
    forall i | 0 <= i < |s.bundles|
      ensures Tidy(s.bundles[i]) && Freed(s.bundles[i]) == Owed(s.bundles[i])
      ensures forall name, ip :: Holds(AsLeased(s.bundles[i]), name, ip) == Holds(s.bundles[i], name, ip)
    {
      assert Locked(s.bundles[i]);
    }
    forall name, ip ensures Holders(AllAsLeased(s.bundles), name, ip) == Holders(s.bundles, name, ip) {
      SameHolders(AllAsLeased(s.bundles), s.bundles, name, ip);
    }
  }

  lemma {:induction false} SameHolders(a: seq<Ipcp>, b: seq<Ipcp>, name: string, ip: Ip)
    requires |a| == |b| && forall i | 0 <= i < |a| :: Holds(a[i], name, ip) == Holds(b[i], name, ip)
    ensures Holders(a, name, ip) == Holders(b, name, ip)
    decreases |a|
  {
    hide Holds;
    if a != [] {
      SameHolders(a[1..], b[1..], name, ip);
    }
  }

  // ---- What negotiation does to a leased address ----

  /** The peer asks for an address, offers us one, or the automaton opens. */
  datatype Word = Asks(ip: Ip) | Offers(ip: Ip) | Opens

  function Said(b: Ipcp, w: Word): Ipcp {
    match w
    case Asks(ip) => Requested(b, ip).0
    case Offers(ip) => Proposed(b, ip)
    case Opens => Fixed(b)
  }

  function Talked(b: Ipcp, ws: seq<Word>): Ipcp {
    if ws == [] then b else Said(Talked(b, ws[..|ws| - 1]), ws[|ws| - 1])
  }

  /** The last offer, or the last since opening. */
  function LastOffer(ws: seq<Word>, sinceOpening: bool): Option<Ip> {
    if ws == [] then None
    else
      var w := ws[|ws| - 1];
      if w.Offers? then Some(w.ip)
      else if sinceOpening && w.Opens? then None
      else LastOffer(ws[..|ws| - 1], sinceOpening)
  }

  function LastAsked(ws: seq<Word>, sinceOpening: bool): Option<Ip> {
    if ws == [] then None
    else
      var w := ws[|ws| - 1];
      if w.Asks? then Some(w.ip)
      else if sinceOpening && w.Opens? then None
      else LastAsked(ws[..|ws| - 1], sinceOpening)
  }

  predicate AsksForSomething(ws: seq<Word>) {
    exists k | 0 <= k < |ws| :: ws[k].Asks? && ws[k].ip != 0
  }

  predicate Allows(o: Option<Ip>, a: Ip) {
    o == None || o == Some(a)
  }

  /** Our leased address is the one recorded at the end exactly if: it is a real one and nothing is
      pretended; or the last offer, of those since opening if it is a real one, was that address. */
  lemma {:induction false} OurLeaseKept(b: Ipcp, a: Ip, ws: seq<Word>)
    requires b.selfAllow == Range(a, 32) && b.want == a
    ensures var c := Talked(b, ws);
      && c.conf == b.conf && c.params == b.params && c.selfUsed == b.selfUsed && c.peerUsed == b.peerUsed
      && c.selfAllow == b.selfAllow && c.peerAllow == b.peerAllow
    ensures Talked(b, ws).want == a <==> (a != 0 && !b.conf.pretend) || Allows(LastOffer(ws, a != 0), a)
    decreases |ws|
  {
    hide InRange;
    if ws != [] {
      var w := ws[|ws| - 1];
      var c := Talked(b, ws[..|ws| - 1]);
      OurLeaseKept(b, a, ws[..|ws| - 1]);
      HostRange(a, c.want);
      if w.Offers? {
        HostRange(a, w.ip);
      }
    }
  }

  /** The same for the peer's; a lease of 0.0.0.0 without pretending is lost by asking for anything. */
  lemma {:induction false} PeersLeaseKept(b: Ipcp, a: Ip, ws: seq<Word>)
    requires b.peerAllow == Range(a, 32) && b.peer == a
    ensures var c := Talked(b, ws); c.conf == b.conf && c.peerAllow == b.peerAllow
    ensures Talked(b, ws).peer == a <==>
      if b.conf.pretend then Allows(LastAsked(ws, a != 0), a) else a != 0 || !AsksForSomething(ws)
    decreases |ws|
  {
    hide InRange;
    if ws != [] {
      var w := ws[|ws| - 1];
      var before := ws[..|ws| - 1];
      var c := Talked(b, before);
      PeersLeaseKept(b, a, before);
      HostRange(a, c.peer);
      if w.Asks? {
        HostRange(a, w.ip);
      }
      LastAsks(ws);
    }
  }

  lemma LastAsks(ws: seq<Word>)
    requires ws != []
    ensures var w := ws[|ws| - 1];
      AsksForSomething(ws) <==> (w.Asks? && w.ip != 0) || AsksForSomething(ws[..|ws| - 1])
  {
    var before := ws[..|ws| - 1];
    if AsksForSomething(before) {
      var k :| 0 <= k < |before| && before[k].Asks? && before[k].ip != 0;
      assert ws[k] == before[k];
    }
    if AsksForSomething(ws) {
      var k :| 0 <= k < |ws| && ws[k].Asks? && ws[k].ip != 0;
      assert k < |ws| - 1 ==> before[k] == ws[k];
    }
  }

  /** A bundle that leases one address gives it back exactly if it is the one recorded at the end; with
      two leases both recorded is enough. */
  lemma KeptIsGivenBack(b: Ipcp)
    requires Tidy(b)
    ensures (b.selfUsed ==> b.want == b.selfAllow.addr) && (b.params.used || b.peerUsed ==> b.peer == b.peerAllow.addr)
      ==> Freed(b) == Owed(b)
    ensures !(b.selfUsed && (b.params.used || b.peerUsed)) && Freed(b) == Owed(b)
      ==> (b.selfUsed ==> b.want == b.selfAllow.addr) && (b.params.used || b.peerUsed ==> b.peer == b.peerAllow.addr)
  {
    if !(b.selfUsed && (b.params.used || b.peerUsed)) && Freed(b) == Owed(b) {
      if b.selfUsed {
        assert (b.conf.selfPool, b.want) in Freed(b);
      } else if b.params.used {
        assert (b.params.pool, b.peer) in Freed(b);
      } else if b.peerUsed {
        assert (b.conf.peerPool, b.peer) in Freed(b);
      }
    }
  }

  /** The two addresses leased are the ones recorded at the end. */
  predicate SelfKept(b: Ipcp, ws: seq<Word>) {
    (b.selfAllow.addr != 0 && !b.conf.pretend) || Allows(LastOffer(ws, b.selfAllow.addr != 0), b.selfAllow.addr)
  }

  predicate PeerKept(b: Ipcp, ws: seq<Word>) {
    if b.conf.pretend then Allows(LastAsked(ws, b.peerAllow.addr != 0), b.peerAllow.addr)
    else b.peerAllow.addr != 0 || !AsksForSomething(ws)
  }

  /** A whole session of a bundle just configured: the ledger survives it exactly if the leased address
      was kept. If two are leased it survives if both were. */
  lemma SessionExactly(s: Sys, i: nat, ws: seq<Word>)
    requires Ledger(s) && i < |s.bundles| && s.bundles[i].configured
    requires s.bundles[i].want == s.bundles[i].selfAllow.addr && s.bundles[i].peer == s.bundles[i].peerAllow.addr
    ensures var b := s.bundles[i]; var t := Sys(s.pools, s.bundles[i := Talked(b, ws)]);
      var peers := b.params.used || b.peerUsed;
      && Ledger(t) && Enabled(t, UnConfigure(i))
      && ((b.selfUsed ==> SelfKept(b, ws)) && (peers ==> PeerKept(b, ws)) ==> Ledger(Step(t, UnConfigure(i))))
      && (!(b.selfUsed && peers) && Ledger(Step(t, UnConfigure(i))) ==>
            (b.selfUsed ==> SelfKept(b, ws)) && (peers ==> PeerKept(b, ws)))
  {
    hide Ledger, Step, Freed, Owed, Talked, LastAsked, LastOffer, Tidy;
    var b := s.bundles[i];
    var c := Talked(b, ws);
    var t := Sys(s.pools, s.bundles[i := c]);
    LedgerTidy(s, i);
    TalkedKeepsLedger(s, i, ws);
    TidyWidths(b);
    if b.selfUsed {
      OurLeaseKept(b, b.selfAllow.addr, ws);
    }
    if b.params.used || b.peerUsed {
      PeersLeaseKept(b, b.peerAllow.addr, ws);
    }
    TalkedKeeps(b, ws);
    UnConfigureExactly(t, i);
    LedgerTidy(t, i);
    KeptIsGivenBack(c);
  }

  lemma TidyWidths(b: Ipcp)
    requires Tidy(b)
    ensures b.selfUsed ==> b.selfAllow.width == 32
    ensures b.params.used || b.peerUsed ==> b.peerAllow.width == 32
  {
  }

  lemma LedgerTidy(s: Sys, i: nat)
    requires Ledger(s) && i < |s.bundles|
    ensures Tidy(s.bundles[i])
  {
  }

  lemma {:induction false} TalkedKeeps(b: Ipcp, ws: seq<Word>)
    ensures var c := Talked(b, ws);
      && c.conf == b.conf && c.params == b.params && c.selfUsed == b.selfUsed && c.peerUsed == b.peerUsed
      && c.selfAllow == b.selfAllow && c.peerAllow == b.peerAllow && c.configured == b.configured
    decreases |ws|
  {
    hide InRange;
    if ws != [] {
      TalkedKeeps(b, ws[..|ws| - 1]);
    }
  }

  lemma TalkedKeepsLedger(s: Sys, i: nat, ws: seq<Word>)
    requires Ledger(s) && i < |s.bundles|
    ensures Ledger(Sys(s.pools, s.bundles[i := Talked(s.bundles[i], ws)]))
  {
    hide Used, Valid, Balanced, Holds, Talked, AllAsLeased;
    var b := s.bundles[i];
    var c := Talked(b, ws);
    TalkedKeeps(b, ws);
    SameLease(b, c);
    FairIfSame(AsLeased(b), AsLeased(c), s.pools);
    IdealUpdate(s, i, c, s.pools);
    FairKeepsBalance(Ideal(s), i, AsLeased(c), s.pools);
  }

  lemma SameLease(b: Ipcp, c: Ipcp)
    requires c.conf == b.conf && c.params == b.params && c.selfUsed == b.selfUsed && c.peerUsed == b.peerUsed
    requires c.selfAllow == b.selfAllow && c.peerAllow == b.peerAllow
    ensures forall name, ip :: Holds(AsLeased(c), name, ip) == Holds(AsLeased(b), name, ip)
  {
  }

  // ---- Authorization replaced during a session ----

  /** What a change of authorization during the session does: the parameters are replaced. */
  function Reauthorized(b: Ipcp, range: Range, pool: string): Ipcp {
    b.(params := Params(range, pool, false))
  }

  /** It loses the lease just if the address had come from the pool authentication chose. */
  lemma ReauthorizationLeaks(s: Sys, i: nat, range: Range, pool: string)
    requires Good(s) && i < |s.bundles|
    ensures Balanced(Put(s, i, (Reauthorized(s.bundles[i], range, pool), s.pools))) <==> !s.bundles[i].params.used
  {
    hide Used, Valid, NoZero;
    var b := s.bundles[i];
    var c := Reauthorized(b, range, pool);
    if b.params.used {
      HeldIsUsed(s, i, b.params.pool, b.peer);
      HoldersUpdate(s.bundles, i, c, b.params.pool, b.peer);
    } else {
      FairIfSame(b, c, s.pools);
      FairKeepsBalance(s, i, c, s.pools);
    }
  }

  // ---- Pools that run out ----

  /** The address a peer is to get from a pool is leased to it, and to nobody else, exactly if the pool
      had a free one. Otherwise it is the address of the last session, and if that is in the pool it is
      leased to somebody else. */
  lemma PeerAddressFate(s: Sys, i: nat)
    requires Good(s) && Enabled(s, Configure(i)) && PeerPool(s.bundles[i]) != ""
    ensures var b := s.bundles[i]; var pool := PeerPool(b); var t := Step(s, Configure(i)); var c := t.bundles[i];
      var free := Offer(TakeSelf(b, s.pools).1, pool).Some?;
      && (Peer(c, pool, c.peer) == 1 <==> free)
      && (free ==> forall j | 0 <= j < |t.bundles| && j != i :: Holds(t.bundles[j], pool, c.peer) == 0)
      && (!free ==> c.peer == b.peerAllow.addr)
      && (!free && pool in s.pools && Listed(s.pools[pool], c.peer) ==>
            exists j | 0 <= j < |t.bundles| :: Holds(t.bundles[j], pool, c.peer) == 1)
  {
    hide Used, Valid, NoZero, Holders, Marked, Listed, Good, Offer, AfterGet, Holds;
    var b := s.bundles[i];
    var pool := PeerPool(b);
    var t := Step(s, Configure(i));
    StepGood(s, Configure(i));
    GoodLocked(s, i);
    var mid := TakeSelf(b, s.pools).1;
    var c := t.bundles[i];
    PeerFate(b, s.pools);
    if Offer(mid, pool).Some? {
      PeerIsHeld(c, pool, c.peer);
      GoodBalanced(t);
      HeldIsUsed(t, i, pool, c.peer);
    } else if pool in s.pools && Listed(s.pools[pool], c.peer) {
      SelfKeepsListed(b, s.pools, pool, c.peer);
      AllUsed(mid, pool, c.peer);
      var j := UsedHasHolder(t, pool, c.peer);
    }
  }

  /** Our own address from a pool fares alike. */
  lemma OwnAddressFate(s: Sys, i: nat)
    requires Good(s) && Enabled(s, Configure(i)) && s.bundles[i].conf.selfPool != ""
    ensures var b := s.bundles[i]; var pool := b.conf.selfPool; var t := Step(s, Configure(i)); var c := t.bundles[i];
      var free := Offer(s.pools, pool).Some?;
      && (Self(c, pool, c.want) == 1 <==> free)
      && (free ==> forall j | 0 <= j < |t.bundles| && j != i :: Holds(t.bundles[j], pool, c.want) == 0)
      && (!free ==> c.want == b.selfAllow.addr)
      && (!free && pool in s.pools && Listed(s.pools[pool], c.want) ==>
            exists j | 0 <= j < |t.bundles| :: Holds(t.bundles[j], pool, c.want) == 1)
  {
    hide Used, Valid, NoZero, Holders, Marked, Listed, Good, Offer, AfterGet, Holds;
    var b := s.bundles[i];
    var pool := b.conf.selfPool;
    var t := Step(s, Configure(i));
    StepGood(s, Configure(i));
    GoodLocked(s, i);
    var c := t.bundles[i];
    OwnFate(b, s.pools);
    GoodBalanced(t);
    if Offer(s.pools, pool).Some? {
      SelfIsHeld(c, pool, c.want);
      HeldIsUsed(t, i, pool, c.want);
    } else if pool in s.pools && Listed(s.pools[pool], c.want) {
      AllUsed(s.pools, pool, c.want);
      PeerKeepsUsed(b, s.pools, pool, c.want);
      var j := UsedHasHolder(t, pool, c.want);
    }
  }

  lemma GoodLocked(s: Sys, i: nat)
    requires Good(s) && i < |s.bundles|
    ensures Valid(s.pools) && Locked(s.bundles[i])
  {
  }

  lemma GoodBalanced(s: Sys)
    requires Good(s)
    ensures Balanced(s)
  {
  }

  lemma PeerFate(b: Ipcp, pools: Pools)
    requires Locked(b) && !b.configured && PeerPool(b) != ""
    ensures var (c, now) := Configured(b, pools); var mid := TakeSelf(b, pools).1;
      && (Peer(c, PeerPool(b), c.peer) == 1 <==> Offer(mid, PeerPool(b)).Some?)
      && (Offer(mid, PeerPool(b)).None? ==> c.peer == b.peerAllow.addr && now == mid)
  {
    hide Offer, AfterGet;
  }

  lemma OwnFate(b: Ipcp, pools: Pools)
    requires Locked(b) && !b.configured && b.conf.selfPool != ""
    ensures var (c, now) := Configured(b, pools);
      && (Self(c, b.conf.selfPool, c.want) == 1 <==> Offer(pools, b.conf.selfPool).Some?)
      && (Offer(pools, b.conf.selfPool).None? ==> c.want == b.selfAllow.addr && TakeSelf(b, pools).1 == pools)
  {
    hide Offer, AfterGet;
  }

  lemma PeerIsHeld(c: Ipcp, pool: string, ip: Ip)
    requires Peer(c, pool, ip) == 1
    ensures Holds(c, pool, ip) > 0
  {
  }

  lemma SelfIsHeld(c: Ipcp, pool: string, ip: Ip)
    requires Self(c, pool, ip) == 1
    ensures Holds(c, pool, ip) > 0
  {
  }

  lemma SelfKeepsListed(b: Ipcp, pools: Pools, pool: string, ip: Ip)
    requires pool in pools && Listed(pools[pool], ip)
    ensures var mid := TakeSelf(b, pools).1; pool in mid && Listed(mid[pool], ip)
  {
    var mid: Pools := TakeSelf(b, pools).1;
    var k :| 0 <= k < |pools[pool]| && pools[pool][k].ip == ip;
    assert mid[pool][k].ip == ip;
  }

  /** In an exhausted pool every address is marked. */
  lemma AllUsed(pools: Pools, pool: string, ip: Ip)
    requires Offer(pools, pool).None? && pool in pools && Listed(pools[pool], ip)
    ensures Used(pools, pool, ip)
  {
    GetFails(pools, pool);
    var k :| 0 <= k < |pools[pool]| && pools[pool][k].ip == ip;
    assert pools[pool][k] == Rec(ip, true);
  }

  lemma PeerKeepsUsed(b: Ipcp, pools: Pools, pool: string, ip: Ip)
    requires Valid(pools) && Used(pools, pool, ip) && TakeSelf(b, pools).1 == pools
    ensures Used(Configured(b, pools).1, pool, ip)
  {
    hide Used, Valid, Offer, AfterGet;
    if PeerPool(b) != "" && Offer(pools, PeerPool(b)).Some? {
      GetLeases(pools, PeerPool(b));
    }
  }
}
