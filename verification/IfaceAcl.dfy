/** Numbers of the packet filter's rules, pipes, queues and tables, one pool of each kind. */
module IfaceAcl {

  /** A number in use: the interface and the access list number it stands for, and the number. */
  datatype Entry = Entry(ifname: string, acl: nat, slot: nat)

  /** Numbers are 16 bits wide. */
  const WIDTH := 0x1_0000

  predicate Ascending(entries: seq<Entry>) {
    forall i, j | 0 <= i < j < |entries| :: entries[i].slot < entries[j].slot
  }

  predicate InRange(entries: seq<Entry>, start: nat) {
    forall i | 0 <= i < |entries| :: start <= entries[i].slot < WIDTH
  }

  /** The numbers from `start` on, as many as given, are in use with no gap. */
  predicate Gapless(entries: seq<Entry>, start: nat, n: nat) {
    n <= |entries| && forall i | 0 <= i < n :: entries[i].slot == start + i
  }

  function Holdings(entries: seq<Entry>): set<Entry> {
    set e | e in entries
  }

  predicate Taken(entries: seq<Entry>, slot: nat) {
    exists i | 0 <= i < |entries| :: entries[i].slot == slot
  }

  /** A number has one owner. */
  lemma OneOwner(entries: seq<Entry>, e: Entry, f: Entry)
    requires Ascending(entries) && e in entries && f in entries && e.slot == f.slot
    ensures e == f
  {
    var i :| 0 <= i < |entries| && entries[i] == e;
    var j :| 0 <= j < |entries| && entries[j] == f;
    assert !(i < j) && !(j < i);
  }

  /** A pool with every number in range in use is full, and no other. */
  lemma {:induction false} FullPool(entries: seq<Entry>, start: nat)
    requires Ascending(entries) && InRange(entries, start) && start <= WIDTH
    ensures |entries| <= WIDTH - start == 65536 - start
    ensures |entries| == 65536 - start <==> Gapless(entries, start, |entries|) && start + |entries| == 65536
  {
    forall i | 0 <= i < |entries| ensures start + i <= entries[i].slot <= WIDTH - |entries| + i {
      Spread(entries, start, i);
    }
    if entries != [] {
      assert start <= entries[0].slot <= WIDTH - |entries|;
    }
  }

  lemma {:induction false} Spread(entries: seq<Entry>, start: nat, i: nat)
    requires Ascending(entries) && InRange(entries, start) && i < |entries|
    ensures start + i <= entries[i].slot <= WIDTH - |entries| + i
  {
    Above(entries, start, i);
    Below(entries, start, i);
  }

  lemma {:induction false} Above(entries: seq<Entry>, start: nat, i: nat)
    requires Ascending(entries) && InRange(entries, start) && i < |entries|
    ensures start + i <= entries[i].slot
  {
    if i > 0 {
      Above(entries, start, i - 1);
    }
  }

  lemma {:induction false} Below(entries: seq<Entry>, start: nat, i: nat)
    requires Ascending(entries) && InRange(entries, start) && i < |entries|
    ensures entries[i].slot <= WIDTH - |entries| + i
    decreases |entries| - i
  {
    if i + 1 < |entries| {
      Below(entries, start, i + 1);
    }
  }

  function Inserted(entries: seq<Entry>, at: nat, e: Entry): seq<Entry>
    requires at <= |entries|
  {
    entries[..at] + [e] + entries[at..]
  }

  /** Inserting the first free number. */
  lemma InsertFree(entries: seq<Entry>, start: nat, at: nat, e: Entry)
    requires Ascending(entries) && InRange(entries, start) && Gapless(entries, start, at)
    requires at < |entries| ==> entries[at].slot > start + at
    requires e.slot == start + at < WIDTH
    ensures Ascending(Inserted(entries, at, e)) && InRange(Inserted(entries, at, e), start)
    ensures Gapless(Inserted(entries, at, e), start, at + 1)
    ensures !Taken(entries, e.slot)
  {
    hide Inserted;
    var r := Inserted(entries, at, e);
    InsertedElements(entries, at, e);
    assert forall i | 0 <= i < at :: r[i].slot == start + i;
    forall i | at < i < |r| ensures r[i].slot > e.slot {
      assert r[i] == entries[i - 1] && entries[at].slot <= entries[i - 1].slot;
    }
    forall i, j | 0 <= i < j < |r| ensures r[i].slot < r[j].slot {
      if i > at { assert r[i] == entries[i - 1] && r[j] == entries[j - 1]; }
    }
  }

  lemma InsertedElements(entries: seq<Entry>, at: nat, e: Entry)
    requires at <= |entries|
    ensures |Inserted(entries, at, e)| == |entries| + 1 && Inserted(entries, at, e)[at] == e
    ensures forall i | 0 <= i < at :: Inserted(entries, at, e)[i] == entries[i]
    ensures forall i | at < i <= |entries| :: Inserted(entries, at, e)[i] == entries[i - 1]
  {
  }

  lemma InsertedHoldings(entries: seq<Entry>, at: nat, e: Entry)
    requires at <= |entries|
    ensures Holdings(Inserted(entries, at, e)) == Holdings(entries) + {e}
  {
    assert entries == entries[..at] + entries[at..];
  }

  function Without(entries: seq<Entry>, ifname: string): seq<Entry> {
    if entries == [] then []
    else if entries[0].ifname == ifname then Without(entries[1..], ifname)
    else [entries[0]] + Without(entries[1..], ifname)
  }

  lemma {:induction false} InWithout(entries: seq<Entry>, ifname: string, e: Entry)
    ensures e in Without(entries, ifname) <==> e in entries && e.ifname != ifname
  {
    if entries != [] {
      assert entries == [entries[0]] + entries[1..];
      InWithout(entries[1..], ifname, e);
    }
  }

  lemma {:induction false} WithoutKeeps(entries: seq<Entry>, ifname: string, start: nat)
    requires Ascending(entries) && InRange(entries, start)
    ensures Ascending(Without(entries, ifname)) && InRange(Without(entries, ifname), start)
  {
    if entries != [] {
      var rest := entries[1..];
      WithoutKeeps(rest, ifname, start);
      forall f | f in Without(rest, ifname) ensures entries[0].slot < f.slot {
        InWithout(rest, ifname, f);
      }
    }
  }

  /** The numbers an interface holds. */
  function Held(entries: seq<Entry>, ifname: string): seq<nat> {
    if entries == [] then []
    else if entries[0].ifname == ifname then [entries[0].slot] + Held(entries[1..], ifname)
    else Held(entries[1..], ifname)
  }

  lemma {:induction false} InHeld(entries: seq<Entry>, ifname: string, slot: nat)
    ensures slot in Held(entries, ifname) <==> exists e | e in entries :: e.ifname == ifname && e.slot == slot
  {
    if entries != [] {
      assert forall e :: e in entries <==> e == entries[0] || e in entries[1..];
      InHeld(entries[1..], ifname, slot);
    }
  }

  /** An access list number and the number it got. */
  datatype Acl = Acl(number: nat, slot: nat)

  class Pool {
    var entries: seq<Entry>
    var start: nat
    const last: nat     // the greatest first number one may choose

    /** Numbers ascend strictly, from `start` on. */
    ghost predicate Valid()
      reads this
    {
      0 < start <= last < WIDTH && Ascending(entries) && InRange(entries, start)
    }

    constructor (start: nat, last: nat)
      requires 0 < start <= last < WIDTH
      ensures Valid() && entries == [] && this.start == start && this.last == last
    {
      entries, this.start, this.last := [], start, last;
    }

    /** The first number can be changed only while the pool is empty. */
    method SetStart(val: int) returns (ok: bool)
      requires Valid()
      modifies this`start
      ensures Valid() && (ok <==> entries == [] && 0 < val <= last)
      ensures start == if ok then val else old(start)
    {
      if entries != [] || val <= 0 || val > last {
        return false;
      }
      start := val;
      return true;
    }

    /** Takes the first free number from the cursor on; the cursor moves to the new entry. Numbers
        wrap to 0 when the pool is full. */
    method Alloc(cursor: nat, from: nat, ifname: string, number: nat) returns (at: nat, slot: nat)
      requires cursor <= |entries|
      modifies this`entries
      ensures at <= |old(entries)| && entries == Inserted(old(entries), at, Entry(ifname, number, slot))
      ensures old(Valid()) && Gapless(old(entries), start, cursor) && from == start + cursor ==>
        if |old(entries)| < WIDTH - start
        then Valid() && slot == start + at && !Taken(old(entries), slot) && Gapless(entries, start, at + 1)
        else slot == 0
    {
      hide Ascending, Taken;
      at := cursor;
      var i := from;
      ghost var ready := Valid() && Gapless(entries, start, cursor) && from == start + cursor;
      while at < |entries| && entries[at].slot <= i
        invariant cursor <= at <= |entries|
        invariant ready ==> Gapless(entries, start, at) && i == start + at
        decreases |entries| - at
      {
        assert ready ==> entries[at].slot == i by {
          if ready { Above(entries, start, at); }
        }
        i := entries[at].slot + 1;
        at := at + 1;
      }
      slot := i % WIDTH;
      if ready {
        FullPool(entries, start);
        if |entries| < WIDTH - start {
          Room(entries, start, at);
          InsertFree(entries, start, at, Entry(ifname, number, slot));
        } else {
          Stops(entries, start, at);
        }
      }
      entries := Inserted(entries, at, Entry(ifname, number, slot));
    }

    /** Numbers for a list of rules, pipes or queues: the lowest that are free. */
    method AllocList(acls: array<Acl>, ifname: string)
      modifies this`entries, acls
      ensures forall k | 0 <= k < acls.Length :: acls[k].number == old(acls[k].number)
      ensures old(Valid()) && |old(entries)| + acls.Length <= WIDTH - start ==>
        && Valid()
        && (forall k | 0 <= k < acls.Length :: !Taken(old(entries), acls[k].slot))
        && (forall j, k | 0 <= j < k < acls.Length :: acls[j].slot < acls[k].slot)
        && (forall k, m | 0 <= k < acls.Length && start <= m <= acls[k].slot :: Taken(entries, m))
        && Holdings(entries) == old(Holdings(entries)) + Owned(acls[..], ifname)
    {
      hide Ascending, InRange, Gapless, Taken, Inserted, Holdings, Owned, Listed;
      var cursor: nat, from: nat, k := 0, start, 0;
      ghost var fits := Valid() && |entries| + acls.Length <= WIDTH - start;
      ghost var was := entries;
      NothingListed(was, start, ifname);
      assert acls[..0] == [];
      while k < acls.Length
        invariant k <= acls.Length && cursor <= |entries| == |was| + k
        invariant forall j | 0 <= j < acls.Length :: acls[j].number == old(acls[j].number)
        invariant fits ==> Listed(was, entries, acls[..k], start, cursor, ifname)
        invariant fits ==>
          from == start + cursor && Ascending(entries) && InRange(entries, start) && Gapless(entries, start, cursor)
      {
        ghost var before, done, at := entries, acls[..k], cursor;
        cursor, from := Alloc(cursor, from, ifname, acls[k].number);
        InsertedSize(before, cursor, Entry(ifname, acls[k].number, from));
        acls[k] := acls[k].(slot := from);
        assert acls[..k + 1] == done + [acls[k]];
        if fits {
          ListStep(was, before, done, acls[k], start, at, cursor, ifname);
        }
        k := k + 1;
      }
      assert acls[..k] == acls[..];
      ListFinished(was, entries, acls[..], start, cursor, ifname, fits);
    }

    /** Numbers for a list of tables, sorted by access list number. A table that has a number keeps
        it; one whose access list number is that of the table numbered before shares its number. */
    method AllocTables(acls: array<Acl>, ifname: string)
      modifies this`entries, acls
      ensures forall k | 0 <= k < acls.Length :: acls[k].number == old(acls[k].number)
      ensures forall k | 0 <= k < acls.Length && old(acls[k].slot) != 0 :: acls[k] == old(acls[k])
      ensures old(Valid()) && |old(entries)| + acls.Length <= WIDTH - start && Sorted(old(acls[..])) ==>
        Valid() && TablesNumbered(old(entries), entries, start, old(acls[..]), acls[..], ifname)
    {
      hide Ascending, InRange, Gapless, Taken, Inserted, Holdings, Numbered, Sorted, Shares, Progress, Mirrors;
      var cursor: nat, from: nat, k := 0, start, 0;
      var prevNumber: int, prevSlot: nat := -1, 0;
      ghost var fits := Valid() && |entries| + acls.Length <= WIDTH - start && Sorted(acls[..]);
      ghost var was, list := entries, acls[..];
      NoProgress(was, start, ifname);
      assert list[..0] == acls[..0] == [];
      MirrorsSelf(list);
      while k < acls.Length
        invariant k <= acls.Length && cursor <= |entries| <= |was| + k
        invariant forall j | k <= j < acls.Length :: acls[j] == list[j]
        invariant Mirrors(list[..k], acls[..k])
        invariant fits ==> Progress(was, entries, list[..k], acls[..k], start, cursor, prevNumber, prevSlot, ifname)
        invariant fits ==>
          from == start + cursor && Ascending(entries) && InRange(entries, start) && Gapless(entries, start, cursor)
      {
        ghost var done, before, at := acls[..k], entries, cursor;
        ghost var number: int, slot: nat := prevNumber, prevSlot;
        if acls[k].slot == 0 {
          if acls[k].number == prevNumber {
            acls[k] := acls[k].(slot := prevSlot);
          } else {
            cursor, from := Alloc(cursor, from, ifname, acls[k].number);
            InsertedSize(before, cursor, Entry(ifname, acls[k].number, from));
            acls[k] := acls[k].(slot := from);
            prevNumber, prevSlot := acls[k].number, from;
          }
        }
        Snocs(list, k);
        assert acls[..k + 1] == done + [acls[k]];
        MirrorsSnoc(list[..k], done, list[k], acls[k]);
        if fits {
          if list[k].slot != 0 {
            SkipProgress(was, entries, list[..k], done, list[k], start, cursor, prevNumber, prevSlot, ifname);
          } else if list[k].number == number {
            ShareProgress(was, entries, list[..k], done, list[k], acls[k], start, cursor, prevNumber, prevSlot, ifname);
          } else {
            Behind(was, before, list, done, k, start, at, number, slot, ifname);
            NewProgress(was, before, list[..k], done, list[k], acls[k], start, at, cursor, number, slot, ifname);
            GaplessLess(entries, start, cursor);
          }
        }
        k := k + 1;
      }
      assert acls[..k] == acls[..] && list[..k] == list;
      Finished(was, entries, list, acls[..], start, cursor, prevNumber, prevSlot, ifname, fits);
    }

    /** The interface's numbers become free; the numbers of others stay. Returns what it held. */
    method Release(ifname: string) returns (freed: seq<nat>)
      modifies this`entries
      ensures entries == Without(old(entries), ifname) && freed == Held(old(entries), ifname)
      ensures old(Valid()) ==> Valid()
      ensures Holdings(entries) == set e | e in old(Holdings(entries)) && e.ifname != ifname
    {
      hide Ascending, InRange;
      ghost var was := entries;
      forall e ensures e in Without(was, ifname) <==> e in was && e.ifname != ifname {
        InWithout(was, ifname, e);
      }
      if Valid() {
        WithoutKeeps(was, ifname, start);
      }
      freed := DropHeld(ifname);
    }

    method DropHeld(ifname: string) returns (freed: seq<nat>)
      modifies this`entries
      ensures entries == Without(old(entries), ifname) && freed == Held(old(entries), ifname)
    {
      hide Without, Held;
      var at := 0;
      freed := [];
      ghost var was := entries;
      assert entries[..0] + Without(was, ifname) == Without(was, ifname);
      while at < |entries|
        invariant 0 <= at <= |entries|
        invariant entries[..at] + Without(entries[at..], ifname) == Without(was, ifname)
        invariant freed + Held(entries[at..], ifname) == Held(was, ifname)
        decreases |entries| - at
      {
        if entries[at].ifname == ifname {
          DropStep(entries, at, freed);
          freed := freed + [entries[at].slot];
          entries := entries[..at] + entries[at + 1..];
        } else {
          KeepStep(entries, at, ifname);
          at := at + 1;
        }
      }
      DropDone(entries, ifname, freed);
    }
  }

  lemma DropStep(entries: seq<Entry>, at: nat, freed: seq<nat>)
    requires at < |entries|
    ensures var ifname, next := entries[at].ifname, entries[..at] + entries[at + 1..];
      && next[..at] + Without(next[at..], ifname) == entries[..at] + Without(entries[at..], ifname)
      && freed + [entries[at].slot] + Held(next[at..], ifname) == freed + Held(entries[at..], ifname)
  {
    var next := entries[..at] + entries[at + 1..];
    assert next[..at] == entries[..at];
    assert next[at..] == entries[at + 1..] == entries[at..][1..];
  }

  lemma KeepStep(entries: seq<Entry>, at: nat, ifname: string)
    requires at < |entries| && entries[at].ifname != ifname
    ensures entries[..at + 1] + Without(entries[at + 1..], ifname) == entries[..at] + Without(entries[at..], ifname)
    ensures Held(entries[at + 1..], ifname) == Held(entries[at..], ifname)
  {
    assert entries[..at + 1] == entries[..at] + [entries[at]];
    assert entries[at..][1..] == entries[at + 1..];
  }

  lemma DropDone(entries: seq<Entry>, ifname: string, freed: seq<nat>)
    ensures entries[..|entries|] + Without(entries[|entries|..], ifname) == entries
    ensures freed + Held(entries[|entries|..], ifname) == freed
  {
  }

  /** The state of numbering a list: `pre` is the pool at the start, `done` the part numbered. All
      numbers up to the last one given are taken. */
  ghost predicate Listed(pre: seq<Entry>, entries: seq<Entry>, done: seq<Acl>, start: nat, cursor: nat,
                         ifname: string)
  {
    && Ascending(entries) && InRange(entries, start)
    && Gapless(entries, start, if done == [] then cursor else cursor + 1)
    && (forall j | 0 <= j < |done| :: !Taken(pre, done[j].slot) && done[j].slot <= start + cursor)
    && (forall i, j | 0 <= i < j < |done| :: done[i].slot < done[j].slot)
    && (forall m | Taken(pre, m) :: Taken(entries, m))
    && Holdings(entries) == Holdings(pre) + Owned(done, ifname)
  }

  lemma NothingListed(pre: seq<Entry>, start: nat, ifname: string)
    ensures Ascending(pre) && InRange(pre, start) ==> Listed(pre, pre, [], start, 0, ifname)
    ensures Gapless(pre, start, 0)
  {
  }

  lemma ListStep(pre: seq<Entry>, before: seq<Entry>, done: seq<Acl>, a: Acl, start: nat, cursor: nat, at: nat,
      ifname: string)
    requires Listed(pre, before, done, start, cursor, ifname)
    requires at <= |before| && a.slot == start + at && !Taken(before, a.slot)
    requires var e := Entry(ifname, a.number, a.slot);
      Ascending(Inserted(before, at, e)) && InRange(Inserted(before, at, e), start)
          && Gapless(Inserted(before, at, e), start, at + 1)
    ensures var r := Inserted(before, at, Entry(ifname, a.number, a.slot));
      Listed(pre, r, done + [a], start, at, ifname) && Gapless(r, start, at)
  {
    hide Ascending, InRange, Gapless, Taken, Holdings, Owned, Inserted;
    var e := Entry(ifname, a.number, a.slot);
    InsertedHoldings(before, at, e);
    InsertedTaken(before, at, e);
    OwnedSnoc(done, a, ifname);
    GaplessLess(Inserted(before, at, e), start, at);
    GaplessTaken(before, start, if done == [] then cursor else cursor + 1);
    assert done != [] ==> at > cursor;
  }

  lemma ListFinished(pre: seq<Entry>, entries: seq<Entry>, done: seq<Acl>, start: nat, cursor: nat, ifname: string,
      fits: bool)
    requires fits ==> Listed(pre, entries, done, start, cursor, ifname)
    ensures fits ==>
      && (forall k | 0 <= k < |done| :: !Taken(pre, done[k].slot))
      && (forall j, k | 0 <= j < k < |done| :: done[j].slot < done[k].slot)
      && (forall k, m | 0 <= k < |done| && start <= m <= done[k].slot :: Taken(entries, m))
      && Holdings(entries) == Holdings(pre) + Owned(done, ifname)
  {
    hide Ascending, InRange, Taken, Holdings, Owned;
    if fits && done != [] {
      GaplessTaken(entries, start, cursor + 1);
    }
  }

  // ---- Tables ----

  predicate Sorted(acls: seq<Acl>) {
    forall i, j | 0 <= i < j < |acls| :: acls[i].number <= acls[j].number
  }

  /** The tables without numbers before share numbers now just if they share access list numbers. */
  predicate Shares(was: seq<Acl>, now: seq<Acl>) {
    && |was| == |now|
    && forall i, j | 0 <= i < |now| && 0 <= j < |now| && was[i].slot == 0 && was[j].slot == 0 ::
         now[i].slot == now[j].slot <==> now[i].number == now[j].number
  }

  /** Numbering done: tables with numbers keep them; those without share numbers as `Shares` says, and
      these numbers, no others, are entered in the pool. They are the lowest free. */
  ghost predicate TablesNumbered(pre: seq<Entry>, post: seq<Entry>, start: nat, was: seq<Acl>, now: seq<Acl>,
                                 ifname: string)
  {
    && Mirrors(was, now) && Shares(was, now)
    && Holdings(post) == Holdings(pre) + Numbered(was, now, ifname)
    && (forall k | 0 <= k < |now| && was[k].slot == 0 :: !Taken(pre, now[k].slot) && now[k].slot > 0)
    && (forall k, m | 0 <= k < |now| && was[k].slot == 0 && start <= m <= now[k].slot :: Taken(post, m))
  }

  /** What the tables without numbers before hold now. */
  ghost function Numbered(was: seq<Acl>, now: seq<Acl>, ifname: string): set<Entry>
    requires |was| == |now|
  {
    set i | 0 <= i < |now| && was[i].slot == 0 :: Entry(ifname, now[i].number, now[i].slot)
  }

  /** The table numbered last. */
  ghost predicate Cursor(was: seq<Acl>, now: seq<Acl>, number: int, slot: nat) {
    && |was| == |now|
    && (forall i | 0 <= i < |now| && was[i].slot == 0 :: now[i].number <= number)
    && (number >= 0 ==> exists i | 0 <= i < |now| :: was[i].slot == 0 && now[i].number == number && now[i].slot == slot)
  }

  lemma NothingNumbered(ifname: string)
    ensures Numbered([], [], ifname) == {}
  {
  }

  lemma SkipStep(was: seq<Acl>, now: seq<Acl>, w: Acl, number: int, slot: nat, ifname: string)
    requires Cursor(was, now, number, slot) && Shares(was, now) && w.slot != 0
    ensures Cursor(was + [w], now + [w], number, slot) && Shares(was + [w], now + [w])
    ensures Numbered(was + [w], now + [w], ifname) == Numbered(was, now, ifname)
  {
    CursorKept(was, now, w, w, number, slot);
    NumberedSnoc(was, now, w, w, ifname);
  }

  lemma CursorKept(was: seq<Acl>, now: seq<Acl>, w: Acl, n: Acl, number: int, slot: nat)
    requires Cursor(was, now, number, slot) && (w.slot == 0 ==> n.number == number)
    ensures Cursor(was + [w], now + [n], number, slot)
  {
    if number >= 0 {
      var i :| 0 <= i < |now| && was[i].slot == 0 && now[i].number == number && now[i].slot == slot;
      assert (was + [w])[i] == was[i] && (now + [n])[i] == now[i];
    }
  }

  lemma NumberedSnoc(was: seq<Acl>, now: seq<Acl>, w: Acl, n: Acl, ifname: string)
    requires |was| == |now|
    ensures Numbered(was + [w], now + [n], ifname)
         == Numbered(was, now, ifname) + (if w.slot == 0 then {Entry(ifname, n.number, n.slot)} else {})
  {
    var s := Numbered(was + [w], now + [n], ifname);
    var t := Numbered(was, now, ifname) + (if w.slot == 0 then {Entry(ifname, n.number, n.slot)} else {});
    forall e | e in t ensures e in s {
      if e in Numbered(was, now, ifname) {
        var i :| 0 <= i < |now| && was[i].slot == 0 && e == Entry(ifname, now[i].number, now[i].slot);
        assert (was + [w])[i] == was[i] && (now + [n])[i] == now[i];
      } else {
        assert (was + [w])[|was|] == w && (now + [n])[|was|] == n;
      }
    }
    forall e | e in s ensures e in t {
      var i :| 0 <= i <= |now| && (was + [w])[i].slot == 0
        && e == Entry(ifname, (now + [n])[i].number, (now + [n])[i].slot);
      if i < |now| {
        assert (was + [w])[i] == was[i] && (now + [n])[i] == now[i];
      }
    }
  }

  lemma ShareStep(was: seq<Acl>, now: seq<Acl>, w: Acl, n: Acl, number: int, slot: nat, ifname: string)
    requires Cursor(was, now, number, slot) && Shares(was, now)
    requires w.slot == 0 && n.number == number && n.slot == slot
    ensures Cursor(was + [w], now + [n], number, slot) && Shares(was + [w], now + [n])
    ensures Numbered(was + [w], now + [n], ifname) == Numbered(was, now, ifname)
  {
    CursorKept(was, now, w, n, number, slot);
    NumberedSnoc(was, now, w, n, ifname);
    var i :| 0 <= i < |now| && was[i].slot == 0 && now[i].number == number && now[i].slot == slot;
    assert Entry(ifname, now[i].number, now[i].slot) in Numbered(was, now, ifname);
    forall j | 0 <= j < |now| && was[j].slot == 0 ensures now[j].slot == slot <==> now[j].number == number {
      assert now[i].slot == now[j].slot <==> now[i].number == now[j].number;
    }
  }

  lemma NewStep(was: seq<Acl>, now: seq<Acl>, w: Acl, n: Acl, number: int, slot: nat, ifname: string)
    requires Cursor(was, now, number, slot) && Shares(was, now)
    requires w.slot == 0 && n.number > number
    requires forall i | 0 <= i < |now| && was[i].slot == 0 :: now[i].slot != n.slot
    ensures Cursor(was + [w], now + [n], n.number, n.slot) && Shares(was + [w], now + [n])
    ensures Numbered(was + [w], now + [n], ifname) == Numbered(was, now, ifname) + {Entry(ifname, n.number, n.slot)}
  {
    NumberedSnoc(was, now, w, n, ifname);
    assert (was + [w])[|was|] == w && (now + [n])[|was|] == n;
  }

  /** Numbers already given are taken. */
  lemma NumberedTaken(was: seq<Acl>, now: seq<Acl>, ifname: string, before: seq<Entry>, entries: seq<Entry>)
    requires |was| == |now| && Holdings(entries) == Holdings(before) + Numbered(was, now, ifname)
    ensures forall i | 0 <= i < |now| && was[i].slot == 0 :: Taken(entries, now[i].slot)
  {
    forall i | 0 <= i < |now| && was[i].slot == 0 ensures Taken(entries, now[i].slot) {
      var e := Entry(ifname, now[i].number, now[i].slot);
      assert e in Holdings(entries);
      assert e in entries;
    }
  }

  /** The list being numbered is the old one but for numbers where there were none. */
  ghost predicate Mirrors(was: seq<Acl>, now: seq<Acl>) {
    && |was| == |now|
    && forall j | 0 <= j < |now| :: now[j].number == was[j].number && (was[j].slot != 0 ==> now[j] == was[j])
  }

  lemma MirrorsSelf(acls: seq<Acl>)
    ensures Mirrors(acls[..0], acls[..0])
  {
  }

  lemma MirrorsSnoc(was: seq<Acl>, now: seq<Acl>, w: Acl, n: Acl)
    requires Mirrors(was, now) && n.number == w.number && (w.slot != 0 ==> n == w)
    ensures Mirrors(was + [w], now + [n])
  {
  }

  lemma Snocs(list: seq<Acl>, k: nat)
    requires k < |list|
    ensures list[..k + 1] == list[..k] + [list[k]]
  {
  }

  /** The state of numbering tables: `pre` is the pool at the start, `was` and `now` the part of the
      list done. */
  ghost predicate Progress(pre: seq<Entry>, entries: seq<Entry>, was: seq<Acl>, now: seq<Acl>,
                           start: nat, cursor: nat, number: int, slot: nat, ifname: string)
  {
    && Ascending(entries) && InRange(entries, start)
    && Gapless(entries, start, if number < 0 then cursor else cursor + 1)
    && |entries| <= |pre| + |now|
    && Cursor(was, now, number, slot) && Shares(was, now)
    && Holdings(entries) == Holdings(pre) + Numbered(was, now, ifname)
    && (forall j | 0 <= j < |now| && was[j].slot == 0 :: !Taken(pre, now[j].slot) && 0 < now[j].slot <= start + cursor)
    && (forall m | Taken(pre, m) :: Taken(entries, m))
  }

  lemma NoProgress(pre: seq<Entry>, start: nat, ifname: string)
    ensures Ascending(pre) && InRange(pre, start) ==> Progress(pre, pre, [], [], start, 0, -1, 0, ifname)
    ensures Gapless(pre, start, 0)
  {
  }

  lemma SkipProgress(pre: seq<Entry>, entries: seq<Entry>, was: seq<Acl>, now: seq<Acl>, w: Acl,
                     start: nat, cursor: nat, number: int, slot: nat, ifname: string)
    requires Progress(pre, entries, was, now, start, cursor, number, slot, ifname) && w.slot != 0
    ensures Progress(pre, entries, was + [w], now + [w], start, cursor, number, slot, ifname)
  {
    hide Ascending, InRange, Gapless, Taken, Holdings, Numbered, Shares, Cursor;
    SameSize(was, now, number, slot);
    SkipStep(was, now, w, number, slot, ifname);
  }

  lemma SameSize(was: seq<Acl>, now: seq<Acl>, number: int, slot: nat)
    requires Cursor(was, now, number, slot)
    ensures |was| == |now|
  {
  }

  lemma ShareProgress(pre: seq<Entry>, entries: seq<Entry>, was: seq<Acl>, now: seq<Acl>, w: Acl, n: Acl,
                      start: nat, cursor: nat, number: int, slot: nat, ifname: string)
    requires Progress(pre, entries, was, now, start, cursor, number, slot, ifname)
    requires w.slot == 0 && n.number == number && n.slot == slot
    ensures Progress(pre, entries, was + [w], now + [n], start, cursor, number, slot, ifname)
  {
    hide Ascending, InRange, Gapless, Taken, Holdings, Numbered, Shares;
    ShareStep(was, now, w, n, number, slot, ifname);
    var i :| 0 <= i < |now| && was[i].slot == 0 && now[i].number == number && now[i].slot == slot;
    assert !Taken(pre, now[i].slot) && 0 < now[i].slot <= start + cursor;
  }

  lemma Behind(pre: seq<Entry>, entries: seq<Entry>, list: seq<Acl>, now: seq<Acl>, k: nat,
               start: nat, cursor: nat, number: int, slot: nat, ifname: string)
    requires k < |list| && Sorted(list) && Mirrors(list[..k], now)
    requires Progress(pre, entries, list[..k], now, start, cursor, number, slot, ifname)
    ensures number <= list[k].number
  {
    hide Ascending, InRange, Gapless, Taken, Holdings, Numbered, Shares;
    if number >= 0 {
      var i :| 0 <= i < |now| && list[..k][i].slot == 0 && now[i].number == number && now[i].slot == slot;
      assert list[..k][i] == list[i];
    }
  }

  lemma NewProgress(pre: seq<Entry>, before: seq<Entry>, was: seq<Acl>, now: seq<Acl>, w: Acl, n: Acl,
                    start: nat, cursor: nat, at: nat, number: int, slot: nat, ifname: string)
    requires Progress(pre, before, was, now, start, cursor, number, slot, ifname)
    requires w.slot == 0 && n.number > number && 0 < n.slot == start + at && at <= |before| && !Taken(before, n.slot)
    requires var e := Entry(ifname, n.number, n.slot);
      Ascending(Inserted(before, at, e)) && InRange(Inserted(before, at, e), start)
          && Gapless(Inserted(before, at, e), start, at + 1)
    ensures Progress(pre, Inserted(before, at, Entry(ifname, n.number, n.slot)), was + [w], now + [n], start, at,
        n.number, n.slot, ifname)
  {
    hide Ascending, InRange, Gapless, Taken, Holdings, Numbered, Shares, Cursor, Inserted;
    var e := Entry(ifname, n.number, n.slot);
    SameSize(was, now, number, slot);
    InsertedSize(before, at, e);
    InsertedHoldings(before, at, e);
    InsertedTaken(before, at, e);
    GaplessLess(Inserted(before, at, e), start, at);
    NumberedTaken(was, now, ifname, pre, before);
    GaplessTaken(before, start, if number < 0 then cursor else cursor + 1);
    assert number >= 0 ==> at > cursor;
    NoneBefore(was, now, number, slot);
    NewStep(was, now, w, n, number, slot, ifname);
  }

  lemma NoneBefore(was: seq<Acl>, now: seq<Acl>, number: int, slot: nat)
    requires Cursor(was, now, number, slot)
    ensures number < 0 ==> forall i | 0 <= i < |now| :: was[i].slot != 0
  {
  }

  lemma Finished(pre: seq<Entry>, entries: seq<Entry>, was: seq<Acl>, now: seq<Acl>,
                 start: nat, cursor: nat, number: int, slot: nat, ifname: string, fits: bool)
    requires Mirrors(was, now)
    requires fits ==> Progress(pre, entries, was, now, start, cursor, number, slot, ifname)
    ensures |was| == |now|
    ensures forall j | 0 <= j < |now| :: now[j].number == was[j].number && (was[j].slot != 0 ==> now[j] == was[j])
    ensures fits ==> Shares(was, now) && Holdings(entries) == Holdings(pre) + Numbered(was, now, ifname)
    ensures fits ==> forall j | 0 <= j < |now| && was[j].slot == 0 :: !Taken(pre, now[j].slot) && now[j].slot > 0
    ensures fits ==> forall j, m | 0 <= j < |now| && was[j].slot == 0 && start <= m <= now[j].slot :: Taken(entries, m)
  {
    hide Ascending, InRange, Taken, Holdings, Numbered, Shares;
    if fits {
      NoneBefore(was, now, number, slot);
      GaplessTaken(entries, start, if number < 0 then cursor else cursor + 1);
    }
  }

  ghost function Owned(acls: seq<Acl>, ifname: string): set<Entry> {
    set a | a in acls :: Entry(ifname, a.number, a.slot)
  }

  lemma OwnedSnoc(acls: seq<Acl>, a: Acl, ifname: string)
    ensures Owned(acls + [a], ifname) == Owned(acls, ifname) + {Entry(ifname, a.number, a.slot)}
  {
    assert forall b :: b in acls + [a] <==> b in acls || b == a;
  }

  lemma GaplessLess(entries: seq<Entry>, start: nat, n: nat)
    requires Gapless(entries, start, n + 1)
    ensures Gapless(entries, start, n)
  {
  }

  lemma InsertedSize(entries: seq<Entry>, at: nat, e: Entry)
    requires at <= |entries|
    ensures |Inserted(entries, at, e)| == |entries| + 1
  {
  }

  lemma InsertedTaken(entries: seq<Entry>, at: nat, e: Entry)
    requires at <= |entries|
    ensures forall m :: Taken(Inserted(entries, at, e), m) <==> Taken(entries, m) || m == e.slot
  {
    var r := Inserted(entries, at, e);
    assert r[at] == e;
    assert forall i | 0 <= i < at :: r[i] == entries[i];
    assert forall i | at <= i < |entries| :: r[i + 1] == entries[i];
    assert forall i | at < i < |r| :: r[i] == entries[i - 1];
  }

  lemma GaplessTaken(entries: seq<Entry>, start: nat, n: nat)
    requires Gapless(entries, start, n)
    ensures forall m | start <= m < start + n :: Taken(entries, m)
  {
    forall m | start <= m < start + n ensures Taken(entries, m) {
      assert entries[m - start].slot == m;
    }
  }

  /** In a pool with room the search stops below the limit. */
  lemma Room(entries: seq<Entry>, start: nat, at: nat)
    requires Ascending(entries) && InRange(entries, start) && Gapless(entries, start, at)
    requires |entries| < WIDTH - start
    ensures start + at < WIDTH
  {
  }

  /** In a full pool the search runs to the limit. */
  lemma Stops(entries: seq<Entry>, start: nat, at: nat)
    requires InRange(entries, start) && Gapless(entries, start, |entries|) && start + |entries| == WIDTH
    requires at <= |entries| && (at < |entries| ==> entries[at].slot > start + at)
    ensures start + at == WIDTH
  {
  }

  // ---- The lists an authenticator sends ----

  predicate StrictlySorted(acls: seq<Acl>) {
    forall i, j | 0 <= i < j < |acls| :: acls[i].number < acls[j].number
  }

  class AclList {
    var acls: seq<Acl>

    constructor ()
      ensures acls == []
    {
      acls := [];
    }

    /** Adds an entry before the first with no lower number. Only tables may repeat a number. */
    method Insert(a: Acl, table: bool) returns (ok: bool)
      requires Sorted(acls)
      modifies this
      ensures Sorted(acls) && (!table && old(StrictlySorted(acls)) ==> StrictlySorted(acls))
      ensures multiset(acls) == multiset(old(acls)) + (if ok then multiset{a} else multiset{})
      ensures ok <==> table || a.number !in Numbers(old(acls))
    {
      hide Sorted, StrictlySorted, Numbers;
      var at := 0;
      while at < |acls| && acls[at].number < a.number
        invariant 0 <= at <= |acls|
        invariant forall i | 0 <= i < at :: acls[i].number < a.number
      {
        at := at + 1;
      }
      NumberFound(acls, at, a.number);
      if at < |acls| && acls[at].number == a.number && !table {
        return false;
      }
      SortedInsert(acls, at, a);
      acls := acls[..at] + [a] + acls[at..];
      return true;
    }
  }

  lemma SortedInsert(acls: seq<Acl>, at: nat, a: Acl)
    requires Sorted(acls) && at <= |acls| && (forall i | 0 <= i < at :: acls[i].number < a.number)
    requires at < |acls| ==> a.number <= acls[at].number
    ensures Sorted(acls[..at] + [a] + acls[at..])
    ensures StrictlySorted(acls) && (at < |acls| ==> a.number < acls[at].number) ==>
        StrictlySorted(acls[..at] + [a] + acls[at..])
    ensures multiset(acls[..at] + [a] + acls[at..]) == multiset(acls) + multiset{a}
  {
    hide Sorted, StrictlySorted;
    MultisetInsert(acls, at, a);
    SortedAround(acls, at, a);
    if StrictlySorted(acls) && (at < |acls| ==> a.number < acls[at].number) {
      StrictAround(acls, at, a);
    }
  }

  lemma MultisetInsert(acls: seq<Acl>, at: nat, a: Acl)
    requires at <= |acls|
    ensures multiset(acls[..at] + [a] + acls[at..]) == multiset(acls) + multiset{a}
  {
    assert acls == acls[..at] + acls[at..];
  }

  lemma SortedAround(acls: seq<Acl>, at: nat, a: Acl)
    requires Sorted(acls) && at <= |acls|
    requires (at > 0 ==> acls[at - 1].number <= a.number) && (at < |acls| ==> a.number <= acls[at].number)
    ensures Sorted(acls[..at] + [a] + acls[at..])
  {
    var r := acls[..at] + [a] + acls[at..];
    assert forall i | 0 <= i < at :: r[i] == acls[i];
    assert forall i | at < i < |r| :: r[i] == acls[i - 1];
  }

  lemma StrictAround(acls: seq<Acl>, at: nat, a: Acl)
    requires StrictlySorted(acls) && at <= |acls|
    requires (at > 0 ==> acls[at - 1].number < a.number) && (at < |acls| ==> a.number < acls[at].number)
    ensures StrictlySorted(acls[..at] + [a] + acls[at..])
  {
    var r := acls[..at] + [a] + acls[at..];
    assert forall i | 0 <= i < at :: r[i] == acls[i];
    assert forall i | at < i < |r| :: r[i] == acls[i - 1];
  }

  function Numbers(acls: seq<Acl>): set<nat> {
    set a | a in acls :: a.number
  }

  lemma NumberFound(acls: seq<Acl>, at: nat, number: nat)
    requires Sorted(acls) && at <= |acls| && forall i | 0 <= i < at :: acls[i].number < number
    requires at < |acls| ==> acls[at].number >= number
    ensures number in Numbers(acls) <==> at < |acls| && acls[at].number == number
  {
    if at < |acls| {
      assert acls[at] in acls;
    }
  }
}
