/** Which tables' numbers are reserved, and who else may be given them. */
module IfaceTables {
  import opened IfaceAcl

  /** An interface's table is reserved if the pool has its entry. */
  predicate Reserved(entries: seq<Entry>, t: Acl, ifname: string) {
    Entry(ifname, t.number, t.slot) in entries
  }

  predicate AllFresh(acls: seq<Acl>) {
    forall k | 0 <= k < |acls| :: acls[k].slot == 0
  }

  /** Numbering reserves a table just if it had no number, or was reserved, or shares list number and
      number with one that had none. */
  lemma ReservedExactly(pre: seq<Entry>, post: seq<Entry>, start: nat, was: seq<Acl>, now: seq<Acl>,
                        ifname: string, k: nat)
    requires TablesNumbered(pre, post, start, was, now, ifname) && k < |now|
    ensures Reserved(post, now[k], ifname) <==>
      || was[k].slot == 0 || Reserved(pre, was[k], ifname)
      || exists j | 0 <= j < |now| :: was[j].slot == 0 && now[j] == was[k]
  {
    hide Taken, Shares;
    var e := Entry(ifname, now[k].number, now[k].slot);
    assert e in post <==> e in Holdings(post);
    assert e in pre <==> e in Holdings(pre);
    if e in Numbered(was, now, ifname) {
      var j :| 0 <= j < |now| && was[j].slot == 0 && e == Entry(ifname, now[j].number, now[j].slot);
      assert now[j] == now[k];
    }
  }

  /** If no table had a number all are reserved. */
  lemma FirstUpReservesAll(pre: seq<Entry>, post: seq<Entry>, start: nat, was: seq<Acl>, now: seq<Acl>, ifname: string)
    requires TablesNumbered(pre, post, start, was, now, ifname) && AllFresh(was)
    ensures forall k | 0 <= k < |now| :: Reserved(post, now[k], ifname)
  {
    hide TablesNumbered, Reserved;
    forall k | 0 <= k < |now| ensures Reserved(post, now[k], ifname) {
      Mirrored(pre, post, start, was, now, ifname);
      ReservedExactly(pre, post, start, was, now, ifname, k);
    }
  }

  lemma Mirrored(pre: seq<Entry>, post: seq<Entry>, start: nat, was: seq<Acl>, now: seq<Acl>, ifname: string)
    requires TablesNumbered(pre, post, start, was, now, ifname)
    ensures Mirrors(was, now)
  {
  }

  // ---- Who is given a number ----

  /** A table that had no number is given this one. */
  predicate Given(was: seq<Acl>, now: seq<Acl>, slot: nat)
    requires |was| == |now|
  {
    exists j | 0 <= j < |now| :: was[j].slot == 0 && now[j].slot == slot
  }

  ghost function GivenSlots(was: seq<Acl>, now: seq<Acl>): set<nat>
    requires |was| == |now|
  {
    set j | 0 <= j < |now| && was[j].slot == 0 :: now[j].slot
  }

  /** The access list numbers of the tables without a number. */
  function FreshNumbers(acls: seq<Acl>): set<nat> {
    set j | 0 <= j < |acls| && acls[j].slot == 0 :: acls[j].number
  }

  function FreeBelow(entries: seq<Entry>, start: nat, slot: nat): set<nat> {
    set m: nat | start <= m < slot && !Taken(entries, m)
  }

  /** Numbers differ just as list numbers do, so there are as many. */
  lemma {:induction false} AsManySlots(was: seq<Acl>, now: seq<Acl>)
    requires Mirrors(was, now) && Shares(was, now)
    ensures |GivenSlots(was, now)| == |FreshNumbers(was)|
    decreases |was|
  {
    hide Mirrors, Shares, GivenSlots, FreshNumbers;
    SameLength(was, now);
    if was == [] {
      assert GivenSlots(was, now) == {} && FreshNumbers(was) == {} by { NoSlots(); }
    } else {
      var n := |was| - 1;
      PrefixShares(was, now, n);
      var was1, now1 := was[..n], now[..n];
      AsManySlots(was1, now1);
      assert was == was1 + [was[n]] && now == now1 + [now[n]];
      SlotsSnoc(was1, now1, was[n], now[n]);
      NumbersSnoc(was1, was[n]);
      if was[n].slot == 0 {
        SeenBoth(was, now, n);
      }
    }
  }

  lemma SameLength(was: seq<Acl>, now: seq<Acl>)
    requires Mirrors(was, now)
    ensures |was| == |now|
  {
  }

  lemma NoSlots()
    ensures GivenSlots([], []) == {} && FreshNumbers([]) == {}
  {
  }

  lemma PrefixShares(was: seq<Acl>, now: seq<Acl>, n: nat)
    requires Mirrors(was, now) && Shares(was, now) && n <= |was|
    ensures |was| == |now| && Mirrors(was[..n], now[..n]) && Shares(was[..n], now[..n])
  {
  }

  lemma SeenBoth(was: seq<Acl>, now: seq<Acl>, n: nat)
    requires Mirrors(was, now) && Shares(was, now) && n < |was| && was[n].slot == 0
    ensures now[n].slot in GivenSlots(was[..n], now[..n]) <==> was[n].number in FreshNumbers(was[..n])
  {
    if now[n].slot in GivenSlots(was[..n], now[..n]) {
      var j :| 0 <= j < n && was[..n][j].slot == 0 && now[..n][j].slot == now[n].slot;
      assert was[..n][j].number == was[n].number;
    }
    if was[n].number in FreshNumbers(was[..n]) {
      var j :| 0 <= j < n && was[..n][j].slot == 0 && was[..n][j].number == was[n].number;
      assert now[..n][j].slot == now[n].slot;
    }
  }

  lemma SlotsSnoc(was: seq<Acl>, now: seq<Acl>, w: Acl, n: Acl)
    requires |was| == |now|
    ensures GivenSlots(was + [w], now + [n]) == GivenSlots(was, now) + (if w.slot == 0 then {n.slot} else {})
  {
    var s := GivenSlots(was + [w], now + [n]);
    var t := GivenSlots(was, now) + (if w.slot == 0 then {n.slot} else {});
    forall x | x in t ensures x in s {
      if x in GivenSlots(was, now) {
        var i :| 0 <= i < |now| && was[i].slot == 0 && x == now[i].slot;
        assert (was + [w])[i] == was[i] && (now + [n])[i] == now[i];
      } else {
        assert (was + [w])[|was|] == w && (now + [n])[|was|] == n;
      }
    }
    forall x | x in s ensures x in t {
      var i :| 0 <= i <= |now| && (was + [w])[i].slot == 0 && x == (now + [n])[i].slot;
      if i < |now| {
        assert (was + [w])[i] == was[i] && (now + [n])[i] == now[i];
      }
    }
  }

  lemma NumbersSnoc(was: seq<Acl>, w: Acl)
    ensures FreshNumbers(was + [w]) == FreshNumbers(was) + (if w.slot == 0 then {w.number} else {})
  {
    var s := FreshNumbers(was + [w]);
    var t := FreshNumbers(was) + (if w.slot == 0 then {w.number} else {});
    forall x | x in t ensures x in s {
      if x in FreshNumbers(was) {
        var i :| 0 <= i < |was| && was[i].slot == 0 && x == was[i].number;
        assert (was + [w])[i] == was[i];
      } else {
        assert (was + [w])[|was|] == w;
      }
    }
    forall x | x in s ensures x in t {
      var i :| 0 <= i <= |was| && (was + [w])[i].slot == 0 && x == (was + [w])[i].number;
      if i < |was| {
        assert (was + [w])[i] == was[i];
      }
    }
  }

  lemma NotHeld(entries: seq<Entry>, e: Entry)
    requires !Taken(entries, e.slot)
    ensures e !in Holdings(entries)
  {
  }

  /** A free number not above one given is given too: no gaps. */
  lemma GivenBelow(pre: seq<Entry>, post: seq<Entry>, start: nat, was: seq<Acl>, now: seq<Acl>, ifname: string,
                   slot: nat, above: nat)
    requires TablesNumbered(pre, post, start, was, now, ifname) && Given(was, now, above)
    requires start <= slot <= above && !Taken(pre, slot)
    ensures Given(was, now, slot)
  {
    var k :| 0 <= k < |now| && was[k].slot == 0 && now[k].slot == above;
    assert Taken(post, slot);
    var i :| 0 <= i < |post| && post[i].slot == slot;
    assert post[i] in Holdings(post);
    NotHeld(pre, post[i]);
    var j :| 0 <= j < |now| && was[j].slot == 0 && post[i] == Entry(ifname, now[j].number, now[j].slot);
  }

  lemma GivenIsFree(pre: seq<Entry>, post: seq<Entry>, start: nat, was: seq<Acl>, now: seq<Acl>, ifname: string,
                    slot: nat)
    requires TablesNumbered(pre, post, start, was, now, ifname) && InRange(post, start) && Given(was, now, slot)
    ensures start <= slot && !Taken(pre, slot)
  {
    hide Taken, Shares;
    var j :| 0 <= j < |now| && was[j].slot == 0 && now[j].slot == slot;
    var e := Entry(ifname, now[j].number, now[j].slot);
    assert e in Holdings(post);
    assert e in post;
  }

  /** A number is given to one of the tables just if it is free and fewer are free below it than there
      are list numbers to serve. Whether a table that keeps a number has the same one does not matter. */
  lemma GivenExactly(pre: seq<Entry>, post: seq<Entry>, start: nat, was: seq<Acl>, now: seq<Acl>, ifname: string,
                     slot: nat)
    requires TablesNumbered(pre, post, start, was, now, ifname) && InRange(post, start)
    ensures |was| == |now|
    ensures Given(was, now, slot) <==>
      start <= slot && !Taken(pre, slot) && |FreeBelow(pre, start, slot)| < |FreshNumbers(was)|
  {
    hide TablesNumbered, Taken, InRange, FreshNumbers, Shares;
    Mirrored(pre, post, start, was, now, ifname);
    Shared(pre, post, start, was, now, ifname);
    AsManySlots(was, now);
    var given, free := GivenSlots(was, now), FreeBelow(pre, start, slot);
    assert forall x :: x in given <==> Given(was, now, x);
    if Given(was, now, slot) {
      GivenIsFree(pre, post, start, was, now, ifname, slot);
      forall m | m in free ensures m in given {
        GivenBelow(pre, post, start, was, now, ifname, m, slot);
      }
      Fewer(free, given, slot);
    } else if start <= slot && !Taken(pre, slot) {
      forall x | x in given ensures x in free {
        GivenIsFree(pre, post, start, was, now, ifname, x);
        if x >= slot {
          GivenBelow(pre, post, start, was, now, ifname, slot, x);
        }
      }
      NoMore(given, free);
    }
  }

  lemma Shared(pre: seq<Entry>, post: seq<Entry>, start: nat, was: seq<Acl>, now: seq<Acl>, ifname: string)
    requires TablesNumbered(pre, post, start, was, now, ifname)
    ensures Shares(was, now)
  {
  }

  lemma {:induction false} NoMore(a: set<nat>, b: set<nat>)
    requires a <= b
    ensures |a| <= |b|
  {
    if x :| x in a {
      NoMore(a - {x}, b - {x});
    }
  }

  lemma Fewer(a: set<nat>, b: set<nat>, x: nat)
    requires a <= b && x in b && x !in a
    ensures |a| < |b|
  {
    NoMore(a + {x}, b);
  }

  /** The numbers in use fix the pool. */
  lemma {:induction false} OneOrder(e: seq<Entry>, f: seq<Entry>)
    requires Ascending(e) && Ascending(f) && Holdings(e) == Holdings(f)
    ensures e == f
    decreases |e|
  {
    if e != [] {
      assert e[0] in Holdings(f);
    }
    if f != [] {
      assert f[0] in Holdings(e);
      var i :| 0 <= i < |e| && e[i] == f[0];
      var j :| 0 <= j < |f| && f[j] == e[0];
      assert e[0] == f[0];
      TailHoldings(e);
      TailHoldings(f);
      OneOrder(e[1..], f[1..]);
    }
  }

  lemma TailHoldings(e: seq<Entry>)
    requires e != [] && Ascending(e)
    ensures Ascending(e[1..]) && Holdings(e[1..]) == Holdings(e) - {e[0]}
  {
    assert e == [e[0]] + e[1..];
    forall f | f in e[1..] ensures f != e[0] {
      var i :| 0 <= i < |e[1..]| && e[1..][i] == f;
    }
  }

  /** Releasing takes away what numbering entered. */
  lemma ReleaseUndoes(pre: seq<Entry>, mid: seq<Entry>, post: seq<Entry>, start: nat, was: seq<Acl>, now: seq<Acl>,
                      ifname: string)
    requires TablesNumbered(pre, mid, start, was, now, ifname) && Ascending(pre) && Ascending(post)
    requires Holdings(post) == set e | e in Holdings(mid) && e.ifname != ifname
    requires forall e | e in pre :: e.ifname != ifname
    ensures post == pre
  {
    hide Taken, Shares, Ascending;
    assert forall e | e in Numbered(was, now, ifname) :: e.ifname == ifname;
    assert Holdings(post) == Holdings(pre);
    OneOrder(post, pre);
  }

  /** Tables that all have numbers change nothing. */
  lemma KeepersChangeNothing(pre: seq<Entry>, post: seq<Entry>, start: nat, was: seq<Acl>, now: seq<Acl>,
                             ifname: string)
    requires TablesNumbered(pre, post, start, was, now, ifname) && Ascending(pre) && Ascending(post)
    requires forall k | 0 <= k < |was| :: was[k].slot != 0
    ensures post == pre && now == was
  {
    hide Taken, Shares, Ascending;
    assert Numbered(was, now, ifname) == {};
    OneOrder(post, pre);
  }

  lemma AllNumbered(pre: seq<Entry>, post: seq<Entry>, start: nat, was: seq<Acl>, now: seq<Acl>, ifname: string)
    requires TablesNumbered(pre, post, start, was, now, ifname) && AllFresh(was) && InRange(post, start)
    ensures |was| == |now| && forall k | 0 <= k < |now| :: now[k].slot != 0 && Given(was, now, now[k].slot)
  {
    hide Shares, Taken, InRange;
  }

  /** A number given in one numbering of a pool would be given in another of as many list numbers. */
  lemma GivenAgain(pre: seq<Entry>, mid: seq<Entry>, post: seq<Entry>, start: nat, was: seq<Acl>, now: seq<Acl>,
                   ifname: string, was2: seq<Acl>, now2: seq<Acl>, ifname2: string, slot: nat)
    requires TablesNumbered(pre, mid, start, was, now, ifname) && InRange(mid, start)
    requires TablesNumbered(pre, post, start, was2, now2, ifname2) && InRange(post, start)
    requires |was| == |now| && Given(was, now, slot)
    ensures |was2| == |now2|
    ensures Given(was2, now2, slot) <==> |FreeBelow(pre, start, slot)| < |FreshNumbers(was2)|
    ensures |FreshNumbers(was)| <= |FreshNumbers(was2)| ==> Given(was2, now2, slot)
  {
    hide TablesNumbered, Taken, InRange, FreshNumbers, FreeBelow, Given;
    GivenExactly(pre, mid, start, was, now, ifname, slot);
    GivenExactly(pre, post, start, was2, now2, ifname2, slot);
  }

  lemma StillSorted(was: seq<Acl>, now: seq<Acl>)
    requires Mirrors(was, now) && Sorted(was)
    ensures Sorted(now)
  {
  }

  lemma NoneReserved(pre: seq<Entry>, post: seq<Entry>, start: nat, was: seq<Acl>, now: seq<Acl>, a: string, b: string)
    requires TablesNumbered(pre, post, start, was, now, b) && a != b && forall e | e in pre :: e.ifname != a
    ensures forall t: Acl :: !Reserved(post, t, a)
  {
    hide Taken, Shares;
    forall t: Acl ensures !Reserved(post, t, a) {
      var e := Entry(a, t.number, t.slot);
      assert e in Holdings(post) <==> e in post;
    }
  }

  // ---- An interface that goes down and comes up again ----

  /** Its tables keep their numbers, but the pool no longer knows: another interface that comes up is
      given the number of each that has fewer free below it than that interface has list numbers. If
      it has no fewer than the first interface it is given them all. */
  method SecondUp(pool: Pool, mine: array<Acl>, other: array<Acl>, a: string, b: string)
    requires pool.Valid() && |pool.entries| + mine.Length + other.Length <= WIDTH - pool.start
    requires Sorted(mine[..]) && AllFresh(mine[..]) && Sorted(other[..]) && mine != other && a != b
    requires forall e | e in pool.entries :: e.ifname != a
    modifies pool, mine, other
    ensures pool.Valid() && TablesNumbered(old(pool.entries), pool.entries, pool.start, old(other[..]), other[..], b)
    ensures forall j | 0 <= j < mine.Length :: !Reserved(pool.entries, mine[j], a)
    ensures forall j | 0 <= j < mine.Length :: Given(old(other[..]), other[..], mine[j].slot) <==>
      |FreeBelow(old(pool.entries), pool.start, mine[j].slot)| < |FreshNumbers(old(other[..]))|
    ensures |FreshNumbers(old(mine[..]))| <= |FreshNumbers(old(other[..]))| ==>
      forall j | 0 <= j < mine.Length :: Given(old(other[..]), other[..], mine[j].slot)
  {
    hide Taken, Sorted, TablesNumbered, Ascending, InRange, Holdings, Reserved, FreeBelow, FreshNumbers, Without;
    ghost var pre, was, was2 := pool.entries, mine[..], other[..];
    pool.AllocTables(mine, a);
    ghost var mid, now := pool.entries, mine[..];
    AllNumbered(pre, mid, pool.start, was, now, a);
    var freed := pool.Release(a);
    ReleaseUndoes(pre, mid, pool.entries, pool.start, was, now, a);
    Mirrored(pre, mid, pool.start, was, now, a);
    StillSorted(was, now);
    pool.AllocTables(mine, a);
    KeepersChangeNothing(pre, pool.entries, pool.start, now, mine[..], a);
    pool.AllocTables(other, b);
    NoneReserved(pre, pool.entries, pool.start, was2, other[..], a, b);
    forall j | 0 <= j < mine.Length
      ensures Given(was2, other[..], mine[j].slot) <==>
        |FreeBelow(pre, pool.start, mine[j].slot)| < |FreshNumbers(was2)|
      ensures |FreshNumbers(was)| <= |FreshNumbers(was2)| ==> Given(was2, other[..], mine[j].slot)
    {
      assert mine[j] == now[j];
      GivenAgain(pre, mid, pool.entries, pool.start, was, now, a, was2, other[..], b, now[j].slot);
    }
  }
}
