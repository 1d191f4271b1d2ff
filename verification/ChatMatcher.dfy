/** The matcher as a machine over its failure table, and exactly when it is right. */
module ChatMatcher {
  import opened ChatMatch

  // ---- Where a perfect matcher is after a text ----

  ghost function StateBelow(pat: string, text: string, j: nat): (m: nat)
    requires j <= |pat| && j <= |text|
    ensures m <= j && Ends(pat, m, text) && forall k | m < k <= j :: !Ends(pat, k, text)
  {
    assert pat[..0] == text[|text|..];
    if Ends(pat, j, text) then j else StateBelow(pat, text, j - 1)
  }

  /** The length of the longest prefix of the pattern that ends the text. */
  ghost function State(pat: string, text: string): (m: nat)
    ensures LongestMatch(pat, m, text)
  {
    StateBelow(pat, text, if |pat| < |text| then |pat| else |text|)
  }

  /** Texts ended by the same prefixes are in the same state. */
  lemma SameState(pat: string, s: string, t: string)
    requires forall k: nat | k <= |pat| :: Ends(pat, k, s) <==> Ends(pat, k, t)
    ensures State(pat, s) == State(pat, t)
  {
    hide Ends;
    var m, n := State(pat, s), State(pat, t);
    StateFits(pat, s);
    StateFits(pat, t);
    assert Ends(pat, m, t) && Ends(pat, n, s);
  }

  lemma StateFits(pat: string, text: string)
    ensures State(pat, text) <= |pat| && State(pat, text) <= |text|
    ensures Ends(pat, State(pat, text), text)
  {
  }

  lemma StateOfPrefix(pat: string, k: nat)
    requires k <= |pat|
    ensures State(pat, pat[..k]) == k && Ends(pat, k, pat[..k])
  {
    assert pat[..k] == pat[..k][|pat[..k]| - k..];
  }

  /** What comes next depends on the state only. */
  lemma StateSnoc(pat: string, text: string, c: char)
    ensures State(pat, text + [c]) == State(pat, pat[..State(pat, text)] + [c])
  {
    var s := State(pat, text);
    forall k: nat | k <= |pat| ensures Ends(pat, k, text + [c]) <==> Ends(pat, k, pat[..s] + [c]) {
      if k == 0 {
        NoneEnds(pat, text + [c]);
        NoneEnds(pat, pat[..s] + [c]);
      } else {
        EndsSnoc(pat, k - 1, text, c);
        EndsSnoc(pat, k - 1, pat[..s], c);
        SamePrefixes(pat, text, k - 1);
      }
    }
    SameState(pat, text + [c], pat[..s] + [c]);
  }

  lemma NoneEnds(pat: string, text: string)
    ensures Ends(pat, 0, text)
  {
    assert text[|text|..] == pat[..0];
  }

  lemma SamePrefixes(pat: string, text: string, k: nat)
    requires k <= |pat|
    ensures Ends(pat, k, text) <==> Ends(pat, k, pat[..State(pat, text)])
  {
    var s := State(pat, text);
    StateOfPrefix(pat, s);
    if k < s {
      ShorterMatchIsBorder(pat, s, k, text);
      ShorterMatchIsBorder(pat, s, k, pat[..s]);
    }
  }

  /** A character adds at most one to the state. */
  lemma StateGrows(pat: string, text: string, c: char)
    ensures State(pat, text + [c]) <= State(pat, text) + 1
  {
    var n := State(pat, text + [c]);
    StateFits(pat, text + [c]);
    if n > 0 {
      EndsSnoc(pat, n - 1, text, c);
    }
  }

  /** The pattern cannot occur before as many characters have come as are missing. */
  lemma {:induction false} NoOccurrenceSoon(pat: string, text: string, more: string)
    requires !Occurs(pat, text) && State(pat, text) + |more| < |pat|
    ensures !Occurs(pat, text + more)
    decreases |more|
  {
    hide Occurs, Ends, State;
    if more == "" {
      assert text + more == text;
    } else {
      OccursSnoc(pat, text, more[0]);
      StateGrows(pat, text, more[0]);
      NotFull(pat, text + [more[0]]);
      NoOccurrenceSoon(pat, text + [more[0]], more[1..]);
      assert text + [more[0]] + more[1..] == text + more;
    }
  }

  lemma NotFull(pat: string, text: string)
    ensures State(pat, text) < |pat| ==> !Ends(pat, |pat|, text)
    ensures State(pat, text) == |pat| ==> Ends(pat, |pat|, text)
  {
  }

  // ---- The machine ----

  /** Entries lead to shorter matches. */
  predicate Descends(pat: string, fail: seq<nat>) {
    |fail| == |pat| && forall i | 0 < i < |pat| :: fail[i] < i
  }

  lemma ComputedDescends(pat: string, fail: seq<nat>)
    requires Computed(pat, fail)
    ensures Descends(pat, fail)
  {
    forall i | 0 < i < |pat| ensures fail[i] < i {
      assert Entry(pat, fail, i);
      assert Border(pat[..i], Longest(pat[..i]));
    }
  }

  /** One character, `m` characters being matched. */
  function Advance(pat: string, fail: seq<nat>, m: nat, c: char): (n: nat)
    requires Descends(pat, fail) && m < |pat|
    ensures n <= m + 1
    ensures c != pat[m] ==> n <= m
    decreases m
  {
    if c == pat[m] then m + 1
    else if m == 0 then 0
    else Advance(pat, fail, fail[m], c)
  }

  /** The machine after a text; it stops when the match is full. */
  function Fed(pat: string, fail: seq<nat>, text: string): (n: nat)
    requires Descends(pat, fail)
    ensures n <= |pat| && n <= |text|
    decreases |text|
  {
    if text == "" then 0
    else
      var m := Fed(pat, fail, text[..|text| - 1]);
      if m == |pat| then m else Advance(pat, fail, m, text[|text| - 1])
  }

  lemma FedSnoc(pat: string, fail: seq<nat>, text: string, c: char)
    requires Descends(pat, fail)
    ensures var m := Fed(pat, fail, text);
      Fed(pat, fail, text + [c]) == if m == |pat| then m else Advance(pat, fail, m, c)
  {
    assert (text + [c])[..|text|] == text;
  }

  /** The machine reports exactly the texts in which the pattern occurs, and so the first occurrence
      when the text is fed character by character. */
  ghost predicate Right(pat: string, fail: seq<nat>)
    requires Descends(pat, fail)
  {
    forall text: string :: Fed(pat, fail, text) == |pat| <==> Occurs(pat, text)
  }

  /** After a mismatch on `c` with `i` characters matched, going on from `f` comes to the same. */
  ghost predicate SameFate(pat: string, i: nat, f: nat, c: char)
    requires i <= |pat| && f <= |pat|
  {
    State(pat, pat[..i] + [c]) == State(pat, pat[..f] + [c])
  }

  /** No entry of the table loses anything. */
  ghost predicate Harmless(pat: string, fail: seq<nat>)
    requires Descends(pat, fail)
  {
    forall i, c | 0 < i < |pat| && c != pat[i] :: SameFate(pat, i, fail[i], c)
  }

  // ---- The machine is right if no entry loses anything... ----

  lemma {:induction false} AdvanceIsState(pat: string, fail: seq<nat>, m: nat, c: char)
    requires Descends(pat, fail) && Harmless(pat, fail) && m < |pat|
    ensures Advance(pat, fail, m, c) == State(pat, pat[..m] + [c])
    decreases m
  {
    hide State, Harmless;
    if c == pat[m] {
      assert pat[..m] + [c] == pat[..m + 1];
      StateOfPrefix(pat, m + 1);
    } else if m == 0 {
      NothingMatched(pat, c);
    } else {
      AdvanceIsState(pat, fail, fail[m], c);
      HarmlessAt(pat, fail, m, c);
    }
  }

  lemma HarmlessAt(pat: string, fail: seq<nat>, i: nat, c: char)
    requires Descends(pat, fail) && Harmless(pat, fail) && 0 < i < |pat| && c != pat[i]
    ensures SameFate(pat, i, fail[i], c)
  {
  }

  lemma NothingMatched(pat: string, c: char)
    requires pat != "" && pat[0] != c
    ensures State(pat, pat[..0] + [c]) == 0
  {
    hide State, Ends, LongestMatch;
    var t := pat[..0] + [c];
    assert t == [c];
    StateFits(pat, t);
    OneCharacter(pat, t);
  }

  lemma OneCharacter(pat: string, t: string)
    requires pat != "" && |t| == 1 && pat[0] != t[0]
    ensures !Ends(pat, 1, t)
  {
    assert pat[..1][0] == pat[0] && t[0..][0] == t[0];
  }

  lemma {:induction false} FedIsState(pat: string, fail: seq<nat>, text: string)
    requires Descends(pat, fail) && Harmless(pat, fail) && pat != ""
    ensures Fed(pat, fail, text) == |pat| <==> Occurs(pat, text)
    ensures !Occurs(pat, text) ==> Fed(pat, fail, text) == State(pat, text)
    ensures Occurs(pat, text) && !Occurs(pat, if text == "" then "" else text[..|text| - 1]) ==>
              State(pat, text) == |pat|
    decreases |text|
  {
    hide State, Harmless, Advance, Occurs, Ends;
    if text == "" {
      NothingOccurs(pat);
    } else {
      var t, c := text[..|text| - 1], text[|text| - 1];
      assert text == t + [c];
      FedIsState(pat, fail, t);
      FedSnoc(pat, fail, t, c);
      OccursSnoc(pat, t, c);
      NotFull(pat, text);
      StateFits(pat, text);
      if !Occurs(pat, t) {
        StateSnoc(pat, t, c);
        AdvanceIsState(pat, fail, State(pat, t), c);
      }
    }
  }

  lemma NothingOccurs(pat: string)
    requires pat != ""
    ensures !Occurs(pat, "") && State(pat, "") == 0
  {
    assert forall i :: !At(pat, "", i);
  }

  // ---- ...and only then ----

  /** Characters of the pattern itself advance the machine. */
  lemma {:induction false} FedOnward(pat: string, fail: seq<nat>, text: string, j: nat)
    requires Descends(pat, fail) && Fed(pat, fail, text) + j <= |pat|
    ensures var m := Fed(pat, fail, text); Fed(pat, fail, text + pat[m..m + j]) == m + j
    decreases j
  {
    hide Fed;
    var m := Fed(pat, fail, text);
    if j == 0 {
      assert text + pat[m..m] == text;
    } else {
      FedOnward(pat, fail, text, j - 1);
      FedSnoc(pat, fail, text + pat[m..m + j - 1], pat[m + j - 1]);
      assert text + pat[m..m + j - 1] + [pat[m + j - 1]] == text + pat[m..m + j];
    }
  }

  /** It cannot report a match before as many characters have come as are missing. */
  lemma {:induction false} FedGrows(pat: string, fail: seq<nat>, text: string, more: string)
    requires Descends(pat, fail)
    ensures Fed(pat, fail, text + more) <= Fed(pat, fail, text) + |more|
    decreases |more|
  {
    hide Fed;
    if more == "" {
      assert text + more == text;
    } else {
      FedSnoc(pat, fail, text, more[0]);
      FedGrows(pat, fail, text + [more[0]], more[1..]);
      assert text + [more[0]] + more[1..] == text + more;
    }
  }

  lemma PrefixFed(pat: string, fail: seq<nat>, m: nat)
    requires Descends(pat, fail) && m <= |pat|
    ensures Fed(pat, fail, pat[..m]) == m
  {
    assert Fed(pat, fail, "") == 0;
    FedOnward(pat, fail, "", m);
    assert "" + pat[0..m] == pat[..m];
  }

  /** A text short of the pattern, or as long but different, does not contain it. */
  lemma DoesNotOccurYet(pat: string, m: nat, c: char)
    requires m < |pat| && c != pat[m]
    ensures !Occurs(pat, pat[..m] + [c]) && State(pat, pat[..m] + [c]) < |pat|
  {
    hide State, Ends, LongestMatch;
    var t := pat[..m] + [c];
    assert t[m] == c;
    assert |pat| == m + 1 ==> t[0..|pat|] == t != pat;
    StateFits(pat, t);
    NotFull(pat, t);
    if Ends(pat, |pat|, t) {
      OccursIfEnds(pat, t);
    }
  }

  lemma RightAdvances(pat: string, fail: seq<nat>, m: nat, c: char)
    requires Descends(pat, fail) && Right(pat, fail) && m < |pat|
    ensures Advance(pat, fail, m, c) == State(pat, pat[..m] + [c])
  {
    hide State, Occurs, Ends, Right;
    if c == pat[m] {
      assert pat[..m] + [c] == pat[..m + 1];
      StateOfPrefix(pat, m + 1);
    } else {
      var t := pat[..m] + [c];
      PrefixFed(pat, fail, m);
      FedSnoc(pat, fail, pat[..m], c);
      DoesNotOccurYet(pat, m, c);
      var a, s := Advance(pat, fail, m, c), State(pat, t);
      if a > s {
        FedOnward(pat, fail, t, |pat| - a);
        NoOccurrenceSoon(pat, t, pat[a..|pat|]);
        RightOn(pat, fail, t + pat[a..|pat|]);
      }
      if a < s {
        StateFits(pat, t);
        CompletedOccurs(pat, s, t);
        FedGrows(pat, fail, t, pat[s..]);
        RightOn(pat, fail, t + pat[s..]);
      }
    }
  }

  lemma RightOn(pat: string, fail: seq<nat>, text: string)
    requires Descends(pat, fail) && Right(pat, fail)
    ensures Fed(pat, fail, text) == |pat| <==> Occurs(pat, text)
  {
  }

  lemma CompletedOccurs(pat: string, s: nat, t: string)
    requires Ends(pat, s, t)
    ensures Occurs(pat, t + pat[s..])
  {
    var u := t + pat[s..];
    assert u[|u| - |pat|..] == t[|t| - s..] + pat[s..] == pat;
    assert pat[..|pat|] == pat;
    OccursIfEnds(pat, u);
  }

  /** The machine is right on every text exactly when no entry of its table loses anything. */
  lemma RightIffHarmless(pat: string, fail: seq<nat>)
    requires Descends(pat, fail) && pat != ""
    ensures Right(pat, fail) <==> Harmless(pat, fail)
  {
    hide State, Advance, Occurs, Ends, LongestMatch;
    if Harmless(pat, fail) {
      forall text: string ensures Fed(pat, fail, text) == |pat| <==> Occurs(pat, text) {
        FedIsState(pat, fail, text);
      }
    }
    if Right(pat, fail) {
      forall i, c | 0 < i < |pat| && c != pat[i] ensures SameFate(pat, i, fail[i], c) {
        RightAdvances(pat, fail, i, c);
        RightAdvances(pat, fail, fail[i], c);
        FallsBack(pat, fail, i, c);
      }
    }
  }

  lemma FallsBack(pat: string, fail: seq<nat>, i: nat, c: char)
    requires Descends(pat, fail) && 0 < i < |pat| && c != pat[i]
    ensures Advance(pat, fail, i, c) == Advance(pat, fail, fail[i], c)
  {
  }

  // ---- Patterns ----

  /** An entry loses nothing if it is a border and no longer border goes on differently. */
  lemma BorderLosesNothing(pat: string, i: nat, f: nat, c: char)
    requires 0 < i < |pat| && Border(pat[..i], f) && c != pat[i]
    requires forall j | f < j < i && Border(pat[..i], j) :: pat[j] == pat[i]
    ensures SameFate(pat, i, f, c)
  {
    hide Ends, State;
    StateOfPrefix(pat, i);
    StateOfPrefix(pat, f);
    ShorterMatchIsBorder(pat, i, f, pat[..i]);
    forall k: nat | k <= |pat| ensures Ends(pat, k, pat[..i] + [c]) <==> Ends(pat, k, pat[..f] + [c]) {
      if k == 0 {
        NoneEnds(pat, pat[..i] + [c]);
        NoneEnds(pat, pat[..f] + [c]);
      } else {
        EndsSnoc(pat, k - 1, pat[..i], c);
        EndsSnoc(pat, k - 1, pat[..f], c);
        SameEnd(pat, i, f, c, k - 1);
      }
    }
    SameState(pat, pat[..i] + [c], pat[..f] + [c]);
  }

  lemma SameEnd(pat: string, i: nat, f: nat, c: char, k: nat)
    requires i < |pat| && f < i && k < |pat| && c != pat[i]
    requires Ends(pat, i, pat[..i]) && Ends(pat, f, pat[..i]) && Ends(pat, f, pat[..f])
    requires forall j | f < j < i && Border(pat[..i], j) :: pat[j] == pat[i]
    ensures Ends(pat, k, pat[..i]) && pat[k] == c <==> Ends(pat, k, pat[..f]) && pat[k] == c
  {
    TooLong(pat, k, pat[..f]);
    TooLong(pat, k, pat[..i]);
    hide Ends, Border;
    if k < f {
      ShorterMatchIsBorder(pat, f, k, pat[..i]);
      ShorterMatchIsBorder(pat, f, k, pat[..f]);
    } else if f < k < i {
      ShorterMatchIsBorder(pat, i, k, pat[..i]);
    }
  }

  lemma TooLong(pat: string, k: nat, text: string)
    ensures k > |text| ==> !Ends(pat, k, text)
  {
  }

  /** A table of the longest borders loses nothing: patterns whose borders fit are matched right. */
  lemma FittingBordersAreRight(pat: string, fail: seq<nat>)
    requires Computed(pat, fail) && BordersFit(pat) && pat != ""
    ensures Descends(pat, fail) && Harmless(pat, fail) && Right(pat, fail)
  {
    hide Right;
    ComputedDescends(pat, fail);
    ComputedTable(pat, fail);
    forall i, c | 0 < i < |pat| && c != pat[i] ensures SameFate(pat, i, fail[i], c) {
      BorderLosesNothing(pat, i, fail[i], c);
    }
    RightIffHarmless(pat, fail);
  }

  function Run(n: nat): (s: string)
    ensures |s| == n && forall i | 0 <= i < n :: s[i] == 'a'
  {
    if n == 0 then "" else Run(n - 1) + "a"
  }

  /** So are runs of one character, of any length, although the borders of long ones do not fit. */
  lemma RunsAreRight(n: nat, fail: seq<nat>)
    requires n > 0 && Computed(Run(n), fail)
    ensures Descends(Run(n), fail) && Right(Run(n), fail)
  {
    hide Right;
    var pat := Run(n);
    ComputedDescends(pat, fail);
    forall i, c | 0 < i < |pat| && c != pat[i] ensures SameFate(pat, i, fail[i], c) {
      RunBorder(pat, i, fail[i]);
      BorderLosesNothing(pat, i, fail[i], c);
    }
    RightIffHarmless(pat, fail);
  }

  lemma RunBorder(pat: string, i: nat, j: nat)
    requires j < i <= |pat| && forall k | 0 <= k < i :: pat[k] == 'a'
    ensures Border(pat[..i], j)
  {
    assert forall k | 0 <= k < j :: pat[..i][..j][k] == 'a' && pat[..i][i - j..][k] == 'a';
  }

  lemma LongestOfRun(p: string)
    requires p != "" && forall k | 0 <= k < |p| :: p[k] == 'a'
    ensures Longest(p) == |p| - 1
  {
    RunBorder(p, |p|, |p| - 1);
    assert p[..|p|] == p;
  }

  /** A run followed by another character is matched right exactly while its length fits an entry: a
      longer one is missed in a text that has the run longer by one. */
  lemma RunThenOther(n: nat, fail: seq<nat>)
    requires n > 0 && Computed(Run(n) + "b", fail)
    ensures Descends(Run(n) + "b", fail)
    ensures Right(Run(n) + "b", fail) <==> n <= 65536
    ensures n > 65536 ==>
      Occurs(Run(n) + "b", Run(n + 1) + "b") && Fed(Run(n) + "b", fail, Run(n + 1) + "b") < n + 1
  {
    hide Right, Occurs, Fed, Harmless;
    var pat := Run(n) + "b";
    ComputedDescends(pat, fail);
    if n <= WRAP {
      ShortPatternsFit(pat);
      FittingBordersAreRight(pat, fail);
    } else {
      var text := Run(n + 1) + "b";
      assert pat[..n] == Run(n);
      LongestOfRun(Run(n));
      assert Entry(pat, fail, n);
      var f := fail[n];
      assert f == (n - 1) % WRAP < n - 1;
      PrefixFed(pat, fail, n);
      FedSnoc(pat, fail, Run(n), 'a');
      assert Advance(pat, fail, n, 'a') == Advance(pat, fail, f, 'a') == f + 1;
      assert Run(n) + ['a'] == Run(n + 1);
      FedSnoc(pat, fail, Run(n + 1), 'b');
      assert Run(n + 1) + ['b'] == text;
      assert Fed(pat, fail, text) <= f + 2 <= n;
      OccursAtOne(pat, text);
      RightFails(pat, fail, text);
    }
  }

  lemma OccursAtOne(pat: string, text: string)
    requires |text| == |pat| + 1 && text[1..] == pat
    ensures Occurs(pat, text)
  {
    assert text[1..1 + |pat|] == text[1..];
    assert At(pat, text, 1);
  }

  lemma RightFails(pat: string, fail: seq<nat>, text: string)
    requires Descends(pat, fail) && Occurs(pat, text) && Fed(pat, fail, text) < |pat|
    ensures !Right(pat, fail)
  {
  }

  // ---- The matcher ----

  class Exact {
    const pat: string
    const fail: array<nat>
    var matched: nat

    ghost var text: string    // the input so far
    ghost var steps: nat      // turns of the matching loop so far

    /** No full match yet; `matched` is where the machine is; the work done is linear. */
    ghost predicate Valid()
      reads this, fail
    {
      && Descends(pat, fail[..])
      && matched == Fed(pat, fail[..], text) < |pat|
      && steps + matched <= 2 * |text|
    }

    constructor (pat: string)
      ensures this.pat == pat && text == "" && fresh(fail) && Computed(pat, fail[..])
      ensures pat != "" ==> Valid()
    {
      hide Computed;
      var f := ComputeFailure(pat);
      ComputedDescends(pat, f[..]);
      this.pat, fail := pat, f;
      matched, text, steps := 0, "", 0;
    }

    /** Feeds one character. With a table that loses nothing, `full` says that the pattern has now
        occurred for the first time, and `matched` is its longest prefix that ends the input. */
    method MatchChar(ch: char) returns (full: bool)
      requires pat != "" ==> Valid()
      modifies this
      ensures text == old(text) + [ch]
      ensures pat == "" ==> full
      ensures pat != "" ==> Descends(pat, fail[..]) && matched == Fed(pat, fail[..], text)
      ensures pat != "" ==> (full <==> matched == |pat|) && steps + matched <= 2 * |text|
      ensures pat != "" && !full ==> Valid()
      ensures pat != "" && Harmless(pat, fail[..]) ==>
                (full <==> Occurs(pat, text)) && LongestMatch(pat, matched, text)
    {
      hide Harmless, LongestMatch, Occurs, Fed;
      ghost var t := text;
      text := text + [ch];
      if |pat| == 0 {
        return true;
      }
      ghost var f := fail[..];
      FedSnoc(pat, f, t, ch);
      if Harmless(pat, f) {
        ShortMatch(pat, f, t, ch);
      }
      while true
        invariant matched < |pat| && fail[..] == f && Descends(pat, f) && text == t + [ch]
        invariant Advance(pat, f, matched, ch) == Advance(pat, f, old(matched), ch)
        invariant steps + matched <= 2 * |t|
        decreases matched
      {
        steps := steps + 1;
        if ch == pat[matched] {
          matched := matched + 1;
          return matched == |pat|;
        }
        if matched == 0 {
          return false;
        }
        assert f[matched] == fail[matched];
        matched := fail[matched];
      }
    }
  }

  /** One more character of a text not matched yet. */
  lemma ShortMatch(pat: string, fail: seq<nat>, t: string, c: char)
    requires Descends(pat, fail) && Harmless(pat, fail) && pat != "" && Fed(pat, fail, t) < |pat|
    ensures Fed(pat, fail, t + [c]) == |pat| <==> Occurs(pat, t + [c])
    ensures LongestMatch(pat, Fed(pat, fail, t + [c]), t + [c])
  {
    hide Harmless, Occurs, Fed, LongestMatch;
    FedIsState(pat, fail, t);
    FedIsState(pat, fail, t + [c]);
    assert (t + [c])[..|t|] == t;
  }
}
