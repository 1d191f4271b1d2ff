/** Pools of addresses to lease. */
module IpPool {

  datatype Option<T> = None | Some(value: T)

  /** An address as a 32-bit number; 0 is no address. */
  type Ip = nat

  const SPACE := 0x1_0000_0000
  const MAX_RANGE := 65536

  datatype Rec = Rec(ip: Ip, used: bool)

  type Pools = map<string, seq<Rec>>

  predicate Distinct(recs: seq<Rec>) {
    forall i, j | 0 <= i < j < |recs| :: recs[i].ip != recs[j].ip
  }

  ghost predicate Valid(pools: Pools) {
    forall name | name in pools :: Distinct(pools[name])
  }

  predicate Listed(recs: seq<Rec>, ip: Ip) {
    exists i | 0 <= i < |recs| :: recs[i].ip == ip
  }

  predicate Marked(recs: seq<Rec>, ip: Ip) {
    exists i | 0 <= i < |recs| :: recs[i] == Rec(ip, true)
  }

  /** The address is marked used in the pool. */
  predicate Used(pools: Pools, name: string, ip: Ip) {
    name in pools && Marked(pools[name], ip)
  }

  // ---- Specification ----

  function FirstFree(recs: seq<Rec>): (n: nat)
    ensures n <= |recs| && (forall i | 0 <= i < n :: recs[i].used) && (n < |recs| ==> !recs[n].used)
  {
    if recs == [] || !recs[0].used then 0 else 1 + FirstFree(recs[1..])
  }

  function Position(recs: seq<Rec>, ip: Ip): (n: nat)
    ensures n <= |recs| && (forall i | 0 <= i < n :: recs[i].ip != ip) && (n < |recs| ==> recs[n].ip == ip)
  {
    if recs == [] || recs[0].ip == ip then 0 else 1 + Position(recs[1..], ip)
  }

  function Offer(pools: Pools, name: string): Option<Ip> {
    if name in pools && FirstFree(pools[name]) < |pools[name]|
    then Some(pools[name][FirstFree(pools[name])].ip) else None
  }

  function AfterGet(pools: Pools, name: string): Pools {
    if Offer(pools, name).None? then pools
    else var recs, n := pools[name], FirstFree(pools[name]); pools[name := recs[n := recs[n].(used := true)]]
  }

  function AfterFree(pools: Pools, name: string, ip: Ip): Pools {
    if name in pools && Position(pools[name], ip) < |pools[name]|
    then var recs, n := pools[name], Position(pools[name], ip); pools[name := recs[n := recs[n].(used := false)]]
    else pools
  }

  /** The size of a range as the program computes it: the difference plus one as a signed word. */
  function RangeSize(begin: Ip, end: Ip): int {
    var c := (end - begin + 1) % SPACE;
    if c < SPACE / 2 then c else c - SPACE
  }

  function Address(begin: Ip, k: nat): Ip {
    (begin + k) % SPACE
  }

  predicate InRun(begin: Ip, i: nat, c: int, ip: Ip) {
    exists k: nat | i <= k < c :: Address(begin, k) == ip
  }

  /** The addresses of a range from the `i`th to the `c`th that are not in the pool. */
  function Missing(recs: seq<Rec>, begin: Ip, i: nat, c: int): seq<Rec>
    decreases c - i
  {
    if i >= c then []
    else if Listed(recs, Address(begin, i)) then Missing(recs, begin, i + 1, c)
    else [Rec(Address(begin, i), false)] + Missing(recs, begin, i + 1, c)
  }

  function AfterAdd(pools: Pools, name: string, begin: Ip, end: Ip): Pools {
    if RangeSize(begin, end) > MAX_RANGE then pools
    else
      var recs := if name in pools then pools[name] else [];
      pools[name := recs + Missing(recs, begin, 0, RangeSize(begin, end))]
  }

  // ---- What leasing does ----

  /** The address leased was free, and nothing else changes. */
  lemma GetLeases(pools: Pools, name: string)
    requires Valid(pools) && Offer(pools, name).Some?
    ensures Valid(AfterGet(pools, name)) && !Used(pools, name, Offer(pools, name).value)
    ensures forall n, a :: Used(AfterGet(pools, name), n, a)
                       <==> Used(pools, n, a) || (n == name && a == Offer(pools, name).value)
  {
    var recs := pools[name];
    var k, ip := FirstFree(recs), Offer(pools, name).value;
    var now := recs[k := Rec(ip, true)];
    assert forall j | 0 <= j < |recs| && j != k :: now[j] == recs[j] && recs[j].ip != ip;
    forall a ensures Marked(now, a) <==> Marked(recs, a) || a == ip {
      if a == ip { assert now[k] == Rec(a, true); }
      if Marked(recs, a) {
        var j :| 0 <= j < |recs| && recs[j] == Rec(a, true);
        assert now[j] == Rec(a, true);
      }
    }
  }

  /** Getting fails just if there is no such pool or every address of it is used. */
  lemma GetFails(pools: Pools, name: string)
    ensures Offer(pools, name).None? <==> (name in pools ==> forall i | 0 <= i < |pools[name]| :: pools[name][i].used)
  {
  }

  lemma FreeReleases(pools: Pools, name: string, ip: Ip)
    requires Valid(pools)
    ensures Valid(AfterFree(pools, name, ip))
    ensures forall n, a :: Used(AfterFree(pools, name, ip), n, a) <==> Used(pools, n, a) && !(n == name && a == ip)
  {
    if name in pools {
      var recs := pools[name];
      var k := Position(recs, ip);
      if k < |recs| {
        var now := recs[k := Rec(ip, false)];
        assert forall j | 0 <= j < |recs| && j != k :: now[j] == recs[j] && recs[j].ip != ip;
        forall a ensures Marked(now, a) <==> Marked(recs, a) && a != ip {
          if Marked(recs, a) && a != ip {
            var j :| 0 <= j < |recs| && recs[j] == Rec(a, true);
            assert now[j] == Rec(a, true);
          }
        }
      }
    }
  }

  lemma InRunStep(begin: Ip, i: nat, c: int, ip: Ip)
    requires i < c
    ensures InRun(begin, i, c, ip) <==> ip == Address(begin, i) || InRun(begin, i + 1, c, ip)
  {
    hide Address;
  }

  lemma {:induction false} InMissing(recs: seq<Rec>, begin: Ip, i: nat, c: int, r: Rec)
    ensures r in Missing(recs, begin, i, c) <==> !r.used && !Listed(recs, r.ip) && InRun(begin, i, c, r.ip)
    decreases c - i
  {
    hide Listed, Address, InRun;
    if i < c {
      InMissing(recs, begin, i + 1, c, r);
      InRunStep(begin, i, c, r.ip);
    } else {
      NoRun(begin, i, c, r.ip);
    }
  }

  lemma NoRun(begin: Ip, i: nat, c: int, ip: Ip)
    requires i >= c
    ensures !InRun(begin, i, c, ip)
  {
  }

  lemma {:induction false} MissingDistinct(recs: seq<Rec>, begin: Ip, i: nat, c: int)
    requires c <= MAX_RANGE
    ensures Distinct(Missing(recs, begin, i, c))
    decreases c - i
  {
    hide Listed, Address;
    if i < c {
      MissingDistinct(recs, begin, i + 1, c);
      var rest := Missing(recs, begin, i + 1, c);
      forall j | 0 <= j < |rest| ensures rest[j].ip != Address(begin, i) {
        InMissing(recs, begin, i + 1, c, rest[j]);
        var k: nat :| i + 1 <= k < c && Address(begin, k) == rest[j].ip;
        NoWrap(begin, i, k);
      }
    }
  }

  lemma NoWrap(begin: nat, i: nat, k: nat)
    requires i < k < i + SPACE
    ensures Address(begin, i) != Address(begin, k)
  {
    var a, b := begin + i, begin + k;
    assert a == (a / SPACE) * SPACE + a % SPACE && b == (b / SPACE) * SPACE + b % SPACE;
  }

  /** Extending a pool keeps every record with its mark, adds the addresses of the range that were
      missing, free, and keeps the addresses distinct. */
  lemma AddExtends(pools: Pools, name: string, begin: Ip, end: Ip)
    requires Valid(pools)
    ensures Valid(AfterAdd(pools, name, begin, end))
    ensures forall n, a :: Used(AfterAdd(pools, name, begin, end), n, a) <==> Used(pools, n, a)
    ensures name in pools ==> pools[name] <= AfterAdd(pools, name, begin, end)[name]
    ensures RangeSize(begin, end) <= MAX_RANGE ==>
      forall a :: Listed(AfterAdd(pools, name, begin, end)[name], a)
        <==> (name in pools && Listed(pools[name], a)) || InRun(begin, 0, RangeSize(begin, end), a)
  {
    hide Listed, InRun, RangeSize, Marked, Distinct, Missing;
    var c := RangeSize(begin, end);
    if c <= MAX_RANGE {
      var recs := if name in pools then pools[name] else [];
      var more := Missing(recs, begin, 0, c);
      NothingPooled();
      MissingDistinct(recs, begin, 0, c);
      forall r | r in more ensures !r.used && !Listed(recs, r.ip) {
        InMissing(recs, begin, 0, c, r);
      }
      Joined(recs, more);
      forall a ensures Listed(recs + more, a) <==> Listed(recs, a) || InRun(begin, 0, c, a) {
        InMissing(recs, begin, 0, c, Rec(a, false));
        ListedFree(recs, more, a);
      }
    }
  }

  /** How many addresses lie behind the first of a range, counting on past the highest address. */
  function Span(begin: Ip, end: Ip): int {
    if begin <= end then end - begin else end - begin + SPACE
  }

  predicate Between(begin: Ip, end: Ip, a: Ip) {
    a < SPACE && if begin <= end then begin <= a <= end else begin <= a || a <= end
  }

  /** A range of at most 65536 addresses is added from the first to the last, both included; a longer one
      is refused, or so long that its size is negative and nothing is added. */
  lemma RangeExactly(begin: Ip, end: Ip, a: Ip)
    requires begin < SPACE && end < SPACE
    ensures RangeSize(begin, end) > MAX_RANGE <==> 65536 <= Span(begin, end) < 0x7fff_ffff
    ensures RangeSize(begin, end) <= MAX_RANGE ==>
      (InRun(begin, 0, RangeSize(begin, end), a) <==> Span(begin, end) < 65536 && Between(begin, end, a))
  {
    hide InRun, RangeSize, Between;
    SizeIs(begin, end);
    var c := RangeSize(begin, end);
    if c <= MAX_RANGE {
      if Span(begin, end) < MAX_RANGE {
        RunIs(begin, end, a);
      } else {
        NoRun(begin, 0, c, a);
      }
    }
  }

  lemma RunIs(begin: Ip, end: Ip, a: Ip)
    requires begin < SPACE && end < SPACE && Span(begin, end) < MAX_RANGE
    ensures InRun(begin, 0, Span(begin, end) + 1, a) <==> Between(begin, end, a)
  {
    hide Address;
    var c := Span(begin, end) + 1;
    if Between(begin, end, a) {
      var k := Span(begin, a);
      AddressOf(begin, k);
      assert Address(begin, k) == a;
    }
    if InRun(begin, 0, c, a) {
      var k: nat :| 0 <= k < c && Address(begin, k) == a;
      AddressOf(begin, k);
    }
  }

  lemma SizeIs(begin: Ip, end: Ip)
    requires begin < SPACE && end < SPACE
    ensures var n := (Span(begin, end) + 1) % SPACE; RangeSize(begin, end) == if n < SPACE / 2 then n else n - SPACE
  {
    if begin > end + 1 {
      assert (end - begin + 1) % SPACE == (end - begin + 1 + SPACE) % SPACE;
    }
  }

  lemma AddressOf(begin: Ip, k: nat)
    requires begin < SPACE && k < SPACE
    ensures Address(begin, k) == if begin + k < SPACE then begin + k else begin + k - SPACE
  {
  }

  /** What a pool lists afterwards. */
  lemma AddLists(pools: Pools, name: string, begin: Ip, end: Ip, a: Ip)
    requires Valid(pools) && begin < SPACE && end < SPACE
    ensures var now := AfterAdd(pools, name, begin, end);
      (name in now && Listed(now[name], a)) <==>
        (name in pools && Listed(pools[name], a)) || (Span(begin, end) < 65536 && Between(begin, end, a))
  {
    hide Listed, InRun, RangeSize, Valid, Missing;
    RangeExactly(begin, end, a);
    AddExtends(pools, name, begin, end);
  }

  lemma NothingPooled()
    ensures Distinct([]) && forall a :: !Listed([], a) && !Marked([], a)
  {
  }

  lemma ListedFree(recs: seq<Rec>, more: seq<Rec>, a: Ip)
    requires forall r | r in more :: !r.used && !Listed(recs, r.ip)
    ensures Listed(more, a) <==> Rec(a, false) in more
  {
    hide Marked, Distinct;
    if Listed(more, a) {
      var j :| 0 <= j < |more| && more[j].ip == a;
      assert more[j] in more;
    }
  }

  /** Free records of new addresses after old records. */
  lemma Joined(recs: seq<Rec>, more: seq<Rec>)
    requires Distinct(recs) && Distinct(more) && forall r | r in more :: !r.used && !Listed(recs, r.ip)
    ensures Distinct(recs + more)
    ensures forall a :: Marked(recs + more, a) <==> Marked(recs, a)
    ensures forall a :: Listed(recs + more, a) <==> Listed(recs, a) || Listed(more, a)
  {
    var all := recs + more;
    assert forall j | 0 <= j < |more| :: more[j] in more;
    assert forall i | 0 <= i < |recs| :: all[i] == recs[i];
    assert forall i | |recs| <= i < |all| :: all[i] == more[i - |recs|];
    assert forall j | 0 <= j < |more| :: all[|recs| + j] == more[j];
  }

  // ---- The pools, updated in place ----

  class IpPools {
    var pools: Pools

    constructor ()
      ensures pools == map[]
    {
      pools := map[];
    }

    method Get(name: string) returns (ip: Option<Ip>)
      modifies this
      ensures ip == Offer(old(pools), name) && pools == AfterGet(old(pools), name)
    {
      if name !in pools {
        return None;
      }
      var recs, i := pools[name], 0;
      while i < |recs|
        invariant 0 <= i <= |recs| && forall k | 0 <= k < i :: recs[k].used
      {
        if !recs[i].used {
          pools := pools[name := recs[i := recs[i].(used := true)]];
          return Some(recs[i].ip);
        }
        i := i + 1;
      }
      return None;
    }

    method Free(name: string, ip: Ip)
      modifies this
      ensures pools == AfterFree(old(pools), name, ip)
    {
      if name !in pools {
        return;
      }
      var recs, i := pools[name], 0;
      while i < |recs|
        invariant 0 <= i <= |recs| && forall k | 0 <= k < i :: recs[k].ip != ip
      {
        if recs[i].ip == ip {
          pools := pools[name := recs[i := recs[i].(used := false)]];
          return;
        }
        i := i + 1;
      }
    }

    /** Adds a range, unless it is too big, to a pool that need not exist. */
    method Add(name: string, begin: Ip, end: Ip)
      modifies this
      ensures pools == AfterAdd(old(pools), name, begin, end)
    {
      hide Listed, Address;
      var c := RangeSize(begin, end);
      if c > MAX_RANGE {
        return;
      }
      var recs := if name in pools then pools[name] else [];
      var all, i := recs, 0;
      assert all + Missing(recs, begin, 0, c) == recs + Missing(recs, begin, 0, c);
      ghost var goal := recs + Missing(recs, begin, 0, c);
      while i < c
        invariant 0 <= i && (c >= 0 ==> i <= c) && pools == old(pools)
        invariant all + Missing(recs, begin, i, c) == goal
      {
        var ip, j := Address(begin, i), 0;
        while j < |recs| && recs[j].ip != ip
          invariant 0 <= j <= |recs| && forall k | 0 <= k < j :: recs[k].ip != ip
        {
          j := j + 1;
        }
        Search(recs, ip, j);
        if j == |recs| {
          assert all + ([Rec(ip, false)] + Missing(recs, begin, i + 1, c))
              == (all + [Rec(ip, false)]) + Missing(recs, begin, i + 1, c);
          all := all + [Rec(ip, false)];
        }
        i := i + 1;
      }
      assert Missing(recs, begin, i, c) == [] && all + [] == all;
      pools := pools[name := all];
    }
  }

  lemma Search(recs: seq<Rec>, ip: Ip, j: nat)
    requires j <= |recs| && (forall k | 0 <= k < j :: recs[k].ip != ip) && (j < |recs| ==> recs[j].ip == ip)
    ensures Listed(recs, ip) <==> j < |recs|
  {
  }
}
