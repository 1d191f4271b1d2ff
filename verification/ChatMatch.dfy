/** Matching an exact pattern against characters as they arrive (Knuth, Morris and Pratt). */
module ChatMatch {

  /** A proper prefix of `p` that is also its suffix has length `j`. */
  predicate Border(p: string, j: nat) {
    j < |p| && p[..j] == p[|p| - j..]
  }

  /** `j` is the length of the longest proper border of `p`. */
  predicate LongestBorder(p: string, j: nat) {
    Border(p, j) && forall k | j < k < |p| :: !Border(p, k)
  }

  /** The first `m` characters of the pattern end the text. */
  predicate Ends(pat: string, m: nat, text: string) {
    m <= |pat| && m <= |text| && pat[..m] == text[|text| - m..]
  }

  /** `m` is the length of the longest prefix of the pattern that ends the text. */
  predicate LongestMatch(pat: string, m: nat, text: string) {
    Ends(pat, m, text) && forall k | m < k <= |pat| :: !Ends(pat, k, text)
  }

  /** The pattern occurs in the text at position `i`. */
  predicate At(pat: string, text: string, i: nat) {
    i + |pat| <= |text| && text[i..i + |pat|] == pat
  }

  predicate Occurs(pat: string, text: string) {
    exists i | 0 <= i <= |text| :: At(pat, text, i)
  }

  // ---- The theory of borders ----

  /** A match shorter than another match is a border of it. */
  lemma ShorterMatchIsBorder(pat: string, m: nat, k: nat, text: string)
    requires Ends(pat, m, text) && k < m
    ensures Ends(pat, k, text) <==> Border(pat[..m], k)
  {
    var n := |text|;
    var t := text[n - m..];
    assert t == pat[..m];
    assert t[m - k..] == text[n - k..];
    assert pat[..m][..k] == pat[..k];
  }

  /** Extending a text by one character. */
  lemma EndsSnoc(pat: string, k: nat, text: string, c: char)
    requires k < |pat|
    ensures Ends(pat, k + 1, text + [c]) <==> Ends(pat, k, text) && pat[k] == c
  {
    var t := text + [c];
    if k <= |text| {
      var a, b := pat[..k + 1], t[|t| - (k + 1)..];
      assert a == pat[..k] + [pat[k]];
      assert b == text[|text| - k..] + [c];
      assert a[..k] == pat[..k] && a[k] == pat[k];
      assert b[..k] == text[|text| - k..] && b[k] == c;
    }
  }

  lemma OccursIfEnds(pat: string, text: string)
    requires Ends(pat, |pat|, text)
    ensures Occurs(pat, text)
  {
    var i := |text| - |pat|;
    assert text[i..i + |pat|] == text[i..] && pat[..|pat|] == pat;
    assert At(pat, text, i);
  }

  /** An occurrence in a longer text is an old one or at its end. */
  lemma AtSnoc(pat: string, text: string, c: char, i: nat)
    ensures i + |pat| <= |text| ==> (At(pat, text + [c], i) <==> At(pat, text, i))
    ensures i + |pat| > |text| && At(pat, text + [c], i) ==> Ends(pat, |pat|, text + [c])
  {
    var t := text + [c];
    if i + |pat| <= |text| {
      assert text[i..i + |pat|] == t[i..i + |pat|];
    } else if At(pat, t, i) {
      assert t[|t| - |pat|..] == t[i..i + |pat|];
      assert pat[..|pat|] == pat;
    }
  }

  /** The pattern occurs in a longer text just if it did before or ends there. */
  lemma OccursSnoc(pat: string, text: string, c: char)
    ensures Occurs(pat, text + [c]) <==> Occurs(pat, text) || Ends(pat, |pat|, text + [c])
  {
    hide At, Ends;
    var t := text + [c];
    if Occurs(pat, t) {
      var i :| 0 <= i <= |t| && At(pat, t, i);
      AtSnoc(pat, text, c, i);
      AtFits(pat, t, i);
    }
    if Occurs(pat, text) {
      var i :| 0 <= i <= |text| && At(pat, text, i);
      AtFits(pat, text, i);
      AtSnoc(pat, text, c, i);
    }
    if Ends(pat, |pat|, t) {
      OccursIfEnds(pat, t);
    }
  }

  lemma AtFits(pat: string, text: string, i: nat)
    requires At(pat, text, i)
    ensures i + |pat| <= |text|
  {
  }

  // ---- The failure table ----

  /** The longest proper border of `p`, among those of length at most `j`. */
  ghost function LongestBelow(p: string, j: nat): (r: nat)
    requires j < |p|
    ensures r <= j && Border(p, r) && forall k | r < k <= j :: !Border(p, k)
  {
    assert p[..0] == p[|p|..];
    if Border(p, j) then j else LongestBelow(p, j - 1)
  }

  ghost function Longest(p: string): (r: nat)
    requires p != ""
    ensures LongestBorder(p, r)
  {
    LongestBelow(p, |p| - 1)
  }

  /** Entry `i` is the longest proper border of the first `i` characters. */
  ghost predicate FailureTable(pat: string, fail: seq<nat>) {
    |fail| == |pat| && forall i | 0 < i < |pat| :: LongestBorder(pat[..i], fail[i])
  }

  /** Entries are 16 bits wide. */
  const WRAP := 0x1_0000

  /** Every border the table must hold fits an entry. */
  ghost predicate BordersFit(pat: string) {
    forall i | 0 < i < |pat| :: Longest(pat[..i]) < WRAP
  }

  /** Entry `i` of the table as computed. */
  ghost predicate Entry(pat: string, fail: seq<nat>, i: nat)
    requires 0 < i < |pat| && i < |fail|
  {
    fail[i] == Longest(pat[..i]) % WRAP
  }

  /** The table as computed. */
  ghost predicate Computed(pat: string, fail: seq<nat>) {
    |fail| == |pat| && forall i | 0 < i < |pat| :: Entry(pat, fail, i)
  }

  /** A computed table is a failure table just if the borders fit. */
  lemma ComputedTable(pat: string, fail: seq<nat>)
    requires Computed(pat, fail)
    ensures FailureTable(pat, fail) <==> BordersFit(pat)
  {
    hide Border;
    if FailureTable(pat, fail) {
      forall i | 0 < i < |pat| ensures Longest(pat[..i]) < WRAP {
        assert Entry(pat, fail, i);
        OneLongest(pat[..i], fail[i]);
      }
    }
    if BordersFit(pat) {
      forall i | 0 < i < |pat| ensures LongestBorder(pat[..i], fail[i]) {
        assert Entry(pat, fail, i);
      }
    }
  }

  /** Borders always fit when the pattern has at most 65537 characters. */
  lemma ShortPatternsFit(pat: string)
    requires |pat| <= 65537
    ensures BordersFit(pat)
  {
    forall i | 0 < i < |pat| ensures Longest(pat[..i]) < WRAP {
      assert Border(pat[..i], Longest(pat[..i]));
    }
  }

  lemma OneLongest(p: string, j: nat)
    requires p != "" && LongestBorder(p, j)
    ensures j == Longest(p)
  {
    var r := Longest(p);
    assert Border(p, r) && Border(p, j);
  }

  lemma NoBorder(p: string)
    requires p != ""
    ensures Border(p, 0)
  {
    assert p[..0] == p[|p|..];
  }

  /** Compares characters 0..j with the `j` before position `i`. */
  method IsBorder(pat: string, i: nat, j: nat) returns (found: bool)
    requires j < i <= |pat|
    ensures found <==> Border(pat[..i], j)
  {
    ghost var p := pat[..i];
    var k := 0;
    while k < j && pat[k] == pat[i - j + k]
      invariant 0 <= k <= j
      invariant forall m | 0 <= m < k :: pat[m] == pat[i - j + m]
    {
      k := k + 1;
    }
    ghost var a, b := p[..j], p[i - j..];
    assert forall m | 0 <= m < j :: a[m] == pat[m];
    assert forall m | 0 <= m < j :: b[m] == pat[i - j + m];
    return k == j;
  }

  method ComputeFailure(pat: string) returns (fail: array<nat>)
    ensures fresh(fail) && fail.Length == |pat| && Computed(pat, fail[..])
  {
    hide Longest, LongestBelow, FailureTable, BordersFit, Border;
    fail := new nat[|pat|](_ => 0);
    var i := 1;
    while i < |pat|
      invariant 1 <= i && (|pat| > 0 ==> i <= |pat|)
      invariant forall k | i <= k < |pat| :: fail[k] == 0
      invariant forall k: nat | 0 < k < i && k < |pat| :: Entry(pat, fail[..], k)
    {
      ghost var p := pat[..i];
      var j := i - 1;
      while j > 0
        invariant 0 <= j < i
        invariant forall k | i <= k < |pat| :: fail[k] == 0
        invariant forall k: nat | 0 < k < i :: Entry(pat, fail[..], k)
        invariant forall k | j < k < i :: !Border(p, k)
      {
        var found := IsBorder(pat, i, j);
        if found {
          OneLongest(p, j);
          Set(pat, fail, i, j % WRAP);
          break;
        }
        j := j - 1;
      }
      if j == 0 {
        NoBorder(p);
        OneLongest(p, 0);
      }
      i := i + 1;
    }
  }

  method Set(pat: string, fail: array<nat>, i: nat, v: nat)
    requires fail.Length == |pat| && 0 < i < |pat|
    requires v == Longest(pat[..i]) % WRAP
    requires forall k: nat | 0 < k < i :: Entry(pat, fail[..], k)
    modifies fail
    ensures fail[..] == old(fail[..])[i := v]
    ensures forall k: nat | 0 < k <= i :: Entry(pat, fail[..], k)
  {
    hide Longest;
    ghost var was := fail[..];
    fail[i] := v;
    forall k: nat | 0 < k <= i ensures Entry(pat, fail[..], k) {
      if k < i { assert Entry(pat, was, k); }
    }
  }
}
