/** The packet filter compiler: a list of match and nomatch rules becomes one expression. */
module IfaceFilter {

  datatype Token = Open | Close | Or | And | Not | Test(text: string)

  /** A rule read: what to test, and the verdict if the test holds. */
  datatype Rule = Match(test: string) | NoMatch(test: string) | Malformed

  // ---- Reading rules ----

  function Lower(s: string): string {
    if s == "" then "" else [if 'A' <= s[0] <= 'Z' then s[0] - 'A' + 'a' else s[0]] + Lower(s[1..])
  }

  /** The position of the first space, or the length. */
  function Word(s: string): (n: nat)
    ensures n <= |s| && ' ' !in s[..n] && (n < |s| ==> s[n] == ' ')
  {
    if s == "" || s[0] == ' ' then 0 else 1 + Word(s[1..])
  }

  /** An action and a test, separated by the first space. */
  function Read(s: string): Rule {
    var n := Word(s);
    if n == |s| then Malformed
    else if Lower(s[..n]) == "match" then Match(s[n + 1..])
    else if Lower(s[..n]) == "nomatch" then NoMatch(s[n + 1..])
    else Malformed
  }

  function ReadAll(rules: seq<string>): seq<Rule> {
    if rules == [] then [] else [Read(rules[0])] + ReadAll(rules[1..])
  }

  /** The same word in any case; `word` is in small letters. */
  predicate SameWord(s: string, word: string) {
    |s| == |word| && forall i | 0 <= i < |s| ::
      (s[i] == word[i] && !('A' <= s[i] <= 'Z')) || ('A' <= s[i] <= 'Z' && s[i] as int + 32 == word[i] as int)
  }

  lemma {:induction false} LowerIs(s: string, word: string)
    ensures Lower(s) == word <==> SameWord(s, word)
    decreases |s|
  {
    if s != "" {
      if word != "" {
        LowerIs(s[1..], word[1..]);
        assert s == [s[0]] + s[1..] && word == [word[0]] + word[1..];
        assert Lower(s)[0] == Lower([s[0]])[0] && Lower(s)[1..] == Lower(s[1..]);
      } else {
        assert |Lower(s)| > 0;
      }
    }
  }

  /** A rule is "match" or "nomatch" in any case, one space, and its test; anything else is malformed. */
  lemma ReadExactly(word: string, test: string)
    requires ' ' !in word
    ensures Read(word).Malformed?
    ensures Read(word + " " + test) ==
      if SameWord(word, "match") then Match(test)
      else if SameWord(word, "nomatch") then NoMatch(test)
      else Malformed
  {
    hide Lower, SameWord;
    var s := word + " " + test;
    FirstSpace(word, s);
    FirstSpace(word, word);
    assert s[..|word|] == word && s[|word| + 1..] == test;
    LowerIs(word, "match");
    LowerIs(word, "nomatch");
  }

  lemma {:induction false} FirstSpace(word: string, s: string)
    requires ' ' !in word && word <= s && (|word| < |s| ==> s[|word|] == ' ')
    ensures Word(s) == |word|
    decreases |word|
  {
    if word != "" {
      assert word == [word[0]] + word[1..] && word[0] == s[0];
      assert word[1..] == s[1..][..|word| - 1];
      FirstSpace(word[1..], s[1..]);
    }
  }

  // ---- What rules mean ----

  /** The verdict of the first rule whose test the packet meets. */
  function FirstHit(rules: seq<Rule>, meets: set<string>): seq<bool> {
    if rules == [] then []
    else if rules[0].Match? && rules[0].test in meets then [true]
    else if rules[0].NoMatch? && rules[0].test in meets then [false]
    else FirstHit(rules[1..], meets)
  }

  predicate LastWellFormed(rules: seq<Rule>) {
    rules != [] && !rules[|rules| - 1].Malformed?
  }

  /** The first rule that applies decides; a packet that meets no test gets the opposite of the last
      rule's verdict. */
  predicate Accepts(rules: seq<Rule>, meets: set<string>) {
    if FirstHit(rules, meets) != [] then FirstHit(rules, meets)[0]
    else rules != [] && rules[|rules| - 1].NoMatch?
  }

  // ---- What expressions mean ----

  /** A value and what follows it, or a syntax error. */
  datatype Parse = Error | Value(value: bool, rest: seq<Token>)

  /** Operators have one precedence and associate to the left. */
  function Expression(ts: seq<Token>, meets: set<string>): (p: Parse)
    ensures p.Value? ==> |p.rest| < |ts|
    decreases |ts|, 2
  {
    var p := Term(ts, meets);
    if p.Error? then p else Tail(p.value, p.rest, meets)
  }

  function Tail(left: bool, ts: seq<Token>, meets: set<string>): (p: Parse)
    ensures p.Value? ==> |p.rest| <= |ts|
    decreases |ts|, 0
  {
    if ts != [] && (ts[0].Or? || ts[0].And?) then
      var p := Term(ts[1..], meets);
      if p.Error? then p
      else Tail(if ts[0].Or? then left || p.value else left && p.value, p.rest, meets)
    else Value(left, ts)
  }

  function Term(ts: seq<Token>, meets: set<string>): (p: Parse)
    ensures p.Value? ==> |p.rest| < |ts|
    decreases |ts|, 1
  {
    if ts == [] then Error
    else match ts[0]
      case Test(text) => Value(text in meets, ts[1..])
      case Not =>
        var p := Term(ts[1..], meets);
        if p.Error? then p else Value(!p.value, p.rest)
      case Open =>
        var p := Expression(ts[1..], meets);
        if p.Value? && p.rest != [] && p.rest[0].Close? then Value(p.value, p.rest[1..]) else Error
      case _ => Error
  }

  /** What the packet filter makes of a text: no expression at all matches everything. */
  function Filter(ts: seq<Token>, meets: set<string>): Parse {
    if ts == [] then Value(true, []) else Expression(ts, meets)
  }

  /** A text with an error in it is replaced by a filter that matches nothing. */
  predicate Matches(ts: seq<Token>, meets: set<string>) {
    Filter(ts, meets) == Value(true, [])
  }

  // ---- What is emitted ----

  function Group(rule: Rule): seq<Token> {
    match rule
    case Match(test) => [Open, Test(test), Close]
    case NoMatch(test) => [Open, Not, Open, Test(test), Close, Close]
    case Malformed => []
  }

  function Joint(rule: Rule): seq<Token> {
    match rule
    case Match(_) => [Or, Open]
    case NoMatch(_) => [And, Open]
    case Malformed => []
  }

  function Emitted(rules: seq<Rule>): seq<Token> {
    if rules == [] then []
    else if rules[0].Malformed? then Emitted(rules[1..])
    else if |rules| == 1 then Group(rules[0])
    else Group(rules[0]) + Joint(rules[0]) + Emitted(rules[1..]) + [Close]
  }

  function Closes(n: nat): seq<Token> {
    if n == 0 then [] else [Close] + Closes(n - 1)
  }

  lemma {:induction false} ClosesSnoc(n: nat)
    ensures Closes(n) + [Close] == Closes(n + 1)
  {
    if n > 0 {
      ClosesSnoc(n - 1);
      assert [Close] + Closes(n - 1) + [Close] == [Close] + (Closes(n - 1) + [Close]);
    }
  }

  /** What is written, what the rules left will add, and the brackets owed make up the whole. */
  predicate Underway(rules: seq<string>, f: nat, buf: seq<Token>, braces: nat)
    requires f <= |rules|
  {
    buf + Emitted(ReadAll(rules[f..])) + Closes(braces) == Emitted(ReadAll(rules))
  }

  /** Appends each rule's text, and the brackets left open at the end. */
  method Compile(rules: seq<string>) returns (buf: seq<Token>)
    ensures buf == Emitted(ReadAll(rules))
  {
    hide Read, Closes, Underway, Emitted, ReadAll, Group, Joint;
    var braces, f := 0, 0;
    buf := [];
    NothingWritten(rules);
    while f < |rules|
      invariant 0 <= f <= |rules| && Underway(rules, f, buf, braces)
    {
      var rule := Read(rules[f]);
      CompileStep(rules, f, buf, braces);
      if !rule.Malformed? {
        buf := buf + Group(rule);
        if f + 1 < |rules| {
          buf := buf + Joint(rule);
          braces := braces + 1;
        }
      }
      f := f + 1;
    }
    AllWritten(rules, buf, braces);
    var i := 0;
    ghost var body := buf;
    NoCloses(body);
    while i < braces
      invariant 0 <= i <= braces && buf == body + Closes(i)
    {
      OneMoreClose(body, i);
      buf := buf + [Close];
      i := i + 1;
    }
  }

  lemma NothingWritten(rules: seq<string>)
    ensures Underway(rules, 0, [], 0)
  {
    hide Emitted;
    assert rules[0..] == rules;
    NoCloses(Emitted(ReadAll(rules)));
  }

  lemma AllWritten(rules: seq<string>, buf: seq<Token>, braces: nat)
    requires Underway(rules, |rules|, buf, braces)
    ensures buf + Closes(braces) == Emitted(ReadAll(rules))
  {
    assert rules[|rules|..] == [] && buf + [] == buf;
  }

  lemma OneMoreClose(body: seq<Token>, i: nat)
    ensures body + Closes(i) + [Close] == body + Closes(i + 1)
  {
    hide Closes;
    ClosesSnoc(i);
    assert body + Closes(i) + [Close] == body + (Closes(i) + [Close]);
  }

  lemma NoCloses(ts: seq<Token>)
    ensures Closes(0) == [] && [] + ts + Closes(0) == ts && ts == ts + Closes(0)
  {
  }

  lemma CompileStep(rules: seq<string>, f: nat, buf: seq<Token>, braces: nat)
    requires f < |rules| && Underway(rules, f, buf, braces)
    ensures var rule := Read(rules[f]);
      if rule.Malformed? then Underway(rules, f + 1, buf, braces)
      else if f + 1 < |rules| then Underway(rules, f + 1, buf + Group(rule) + Joint(rule), braces + 1)
      else Underway(rules, f + 1, buf + Group(rule), braces)
  {
    hide Read, Group, Joint;
    var rule, rs := Read(rules[f]), ReadAll(rules[f..]);
    assert rules[f..][1..] == rules[f + 1..];
    assert rs == [rule] + ReadAll(rules[f + 1..]);
    assert rs[1..] == ReadAll(rules[f + 1..]);
    ReadAllLength(rules[f..]);
    var rest := Emitted(rs[1..]);
    if !rule.Malformed? && f + 1 < |rules| {
      var g, j, c := Group(rule), Joint(rule), Closes(braces);
      assert buf + (g + j + rest + [Close]) + c == buf + g + j + rest + ([Close] + c);
    }
  }

  lemma {:induction false} ReadAllLength(rules: seq<string>)
    ensures |ReadAll(rules)| == |rules|
  {
    if rules != [] {
      ReadAllLength(rules[1..]);
    }
  }

  // ---- The expression means what the rules mean ----

  /** What nesting the rules comes to. */
  predicate Nested(rules: seq<Rule>, meets: set<string>) {
    if rules == [] then false
    else match rules[0]
      case Malformed => Nested(rules[1..], meets)
      case Match(test) => test in meets || (|rules| > 1 && Nested(rules[1..], meets))
      case NoMatch(test) => test !in meets && (|rules| > 1 ==> Nested(rules[1..], meets))
  }

  lemma {:induction false} NestedAccepts(rules: seq<Rule>, meets: set<string>)
    requires LastWellFormed(rules)
    ensures Nested(rules, meets) == Accepts(rules, meets)
  {
    if |rules| > 1 {
      assert rules[1..][|rules| - 2] == rules[|rules| - 1];
      NestedAccepts(rules[1..], meets);
      assert FirstHit(rules[1..], meets) == [] || FirstHit(rules[1..], meets) != [];
    } else {
      assert FirstHit(rules[1..], meets) == [];
    }
  }

  /** What may follow an expression. */
  predicate Ends(ts: seq<Token>) {
    ts == [] || ts[0].Close?
  }

  lemma GroupParses(rule: Rule, rest: seq<Token>, meets: set<string>)
    requires !rule.Malformed?
    ensures Term(Group(rule) + rest, meets) ==
      Value(if rule.Match? then rule.test in meets else rule.test !in meets, rest)
  {
    var ts := Group(rule) + rest;
    if rule.Match? {
      TestParses(rule.test, rest, meets);
      assert ts == [Open, Test(rule.test), Close] + rest;
    } else {
      var inner := [Open, Test(rule.test), Close] + ([Close] + rest);
      TestParses(rule.test, [Close] + rest, meets);
      assert ts[1..] == [Not] + inner;
      assert ts[1..][1..] == inner;
      assert Term(ts[1..], meets) == Value(rule.test !in meets, [Close] + rest);
      assert Expression(ts[1..], meets) == Value(rule.test !in meets, [Close] + rest);
    }
  }

  lemma TestParses(test: string, rest: seq<Token>, meets: set<string>)
    ensures Term([Open, Test(test), Close] + rest, meets) == Value(test in meets, rest)
  {
    var ts := [Open, Test(test), Close] + rest;
    assert ts[1..] == [Test(test), Close] + rest;
    assert ts[1..][1..] == [Close] + rest;
    assert Expression(ts[1..], meets) == Value(test in meets, [Close] + rest);
  }

  /** The emitted expression parses just if the last rule is well-formed, to what the rules nest to. */
  lemma {:induction false} EmittedParses(rules: seq<Rule>, rest: seq<Token>, meets: set<string>)
    requires rules != [] && Ends(rest)
    ensures Expression(Emitted(rules) + rest, meets)
         == if LastWellFormed(rules) then Value(Nested(rules, meets), rest) else Error
    decreases |rules|
  {
    hide Term, Group, Tail;
    var rule := rules[0];
    if |rules| > 1 {
      assert rules[1..][|rules| - 2] == rules[|rules| - 1];
    }
    if rule.Malformed? {
      if |rules| > 1 {
        EmittedParses(rules[1..], rest, meets);
      } else {
        assert Emitted(rules) + rest == rest;
        EndIsNoTerm(rest, meets);
      }
    } else if |rules| == 1 {
      GroupParses(rule, rest, meets);
      TailStops((rule.test in meets) == rule.Match?, rest, meets);
    } else {
      var inner := Emitted(rules[1..]) + ([Close] + rest);
      EmittedParses(rules[1..], [Close] + rest, meets);
      assert Emitted(rules) + rest == Group(rule) + (Joint(rule) + inner);
      GroupParses(rule, Joint(rule) + inner, meets);
      assert Emitted(rules[1..]) + ([Close] + rest) == inner;
      JoinParses(rule, (rule.test in meets) == rule.Match?, inner, rest, meets);
    }
  }

  /** Going on after a group with the rest of the rules in brackets. */
  lemma JoinParses(rule: Rule, left: bool, inner: seq<Token>, rest: seq<Token>, meets: set<string>)
    requires !rule.Malformed? && Ends(rest)
    requires var p := Expression(inner, meets); p.Error? || p.rest == [Close] + rest
    ensures var p := Expression(inner, meets);
      Tail(left, Joint(rule) + inner, meets)
      == if p.Error? then Error else Value(if rule.Match? then left || p.value else left && p.value, rest)
  {
    hide Expression, Term;
    Bracketed(inner, meets);
    assert (Joint(rule) + inner)[1..] == [Open] + inner;
    assert ([Close] + rest)[1..] == rest;
    TailStops(true, rest, meets);
    TailStops(false, rest, meets);
  }

  lemma TailStops(left: bool, rest: seq<Token>, meets: set<string>)
    requires Ends(rest)
    ensures Tail(left, rest, meets) == Value(left, rest)
  {
  }

  lemma EndIsNoTerm(ts: seq<Token>, meets: set<string>)
    requires Ends(ts)
    ensures Term(ts, meets) == Error
  {
  }

  lemma Bracketed(ts: seq<Token>, meets: set<string>)
    ensures var p := Expression(ts, meets);
      Term([Open] + ts, meets)
      == if p.Value? && p.rest != [] && p.rest[0].Close? then Value(p.value, p.rest[1..]) else Error
  {
    assert ([Open] + ts)[1..] == ts;
  }

  predicate AllMalformed(rules: seq<Rule>) {
    forall i | 0 <= i < |rules| :: rules[i].Malformed?
  }

  lemma {:induction false} NothingEmitted(rules: seq<Rule>)
    ensures Emitted(rules) == [] <==> AllMalformed(rules)
  {
    if rules != [] {
      NothingEmitted(rules[1..]);
      assert AllMalformed(rules) <==> rules[0].Malformed? && AllMalformed(rules[1..]) by {
        assert rules == [rules[0]] + rules[1..];
      }
    }
  }

  /** Compilation preserves meaning, malformed rules counting for nothing, when the last rule is
      well-formed: then the packets accepted are those the first applicable rule accepts. A list of
      malformed rules only is no expression and matches every packet; any other list is a syntax
      error and matches none. */
  lemma CompilationPreservesMeaning(rules: seq<Rule>, meets: set<string>)
    ensures Matches(Emitted(rules), meets)
       <==> AllMalformed(rules) || (LastWellFormed(rules) && Accepts(rules, meets))
    ensures Filter(Emitted(rules), meets).Error? <==> !AllMalformed(rules) && !LastWellFormed(rules)
  {
    hide Expression, Accepts, Nested, Emitted;
    NothingEmitted(rules);
    if rules != [] {
      EmittedParses(rules, [], meets);
      assert Emitted(rules) + [] == Emitted(rules);
      assert LastWellFormed(rules) ==> !AllMalformed(rules);
      if LastWellFormed(rules) {
        NestedAccepts(rules, meets);
      }
    }
  }

  /** Malformed rules before the last do not matter. */
  lemma {:induction false} MalformedDoNotMatter(rules: seq<Rule>)
    requires LastWellFormed(rules)
    ensures Emitted(rules) == Emitted(WellFormed(rules))
  {
    if |rules| > 1 {
      assert rules[1..][|rules| - 2] == rules[|rules| - 1];
      MalformedDoNotMatter(rules[1..]);
      assert WellFormed(rules[1..]) != [] by { SomeWellFormed(rules[1..]); }
      if !rules[0].Malformed? {
        assert WellFormed(rules)[1..] == WellFormed(rules[1..]);
      }
    } else {
      assert WellFormed(rules[1..]) == [];
      assert WellFormed(rules) == rules;
    }
  }

  function WellFormed(rules: seq<Rule>): seq<Rule> {
    if rules == [] then []
    else if rules[0].Malformed? then WellFormed(rules[1..])
    else [rules[0]] + WellFormed(rules[1..])
  }

  lemma {:induction false} SomeWellFormed(rules: seq<Rule>)
    requires LastWellFormed(rules)
    ensures WellFormed(rules) != []
  {
    if |rules| > 1 {
      assert rules[1..][|rules| - 2] == rules[|rules| - 1];
      SomeWellFormed(rules[1..]);
    }
  }

  // ---- Brackets ----

  /** The brackets left open after the tokens, or -1 if one is closed that is not open. */
  function Depth(ts: seq<Token>, open: nat): int {
    if ts == [] then open
    else if ts[0].Open? then Depth(ts[1..], open + 1)
    else if !ts[0].Close? then Depth(ts[1..], open)
    else if open == 0 then -1
    else Depth(ts[1..], open - 1)
  }

  lemma {:induction false} DepthConcat(a: seq<Token>, b: seq<Token>, open: nat)
    requires Depth(a, open) >= 0
    ensures Depth(a + b, open) == Depth(b, Depth(a, open))
    decreases |a|
  {
    if a == [] {
      assert a + b == b;
    } else {
      assert (a + b)[1..] == a[1..] + b;
      DepthConcat(a[1..], b, if a[0].Open? then open + 1 else if a[0].Close? then open - 1 else open);
    }
  }

  /** Brackets balance, whatever the rules. */
  lemma {:induction false} Balanced(rules: seq<Rule>, open: nat)
    ensures Depth(Emitted(rules), open) == open
    decreases |rules|
  {
    if rules != [] {
      Balanced(rules[1..], open);
      if !rules[0].Malformed? {
        PiecesBalance(rules[0], open);
        if |rules| > 1 {
          var g, j, e := Group(rules[0]), Joint(rules[0]), Emitted(rules[1..]);
          Balanced(rules[1..], open + 1);
          DepthConcat(g, j, open);
          DepthConcat(g + j, e, open);
          DepthConcat(g + j + e, [Close], open);
          CloseOne(open + 1);
        }
      }
    }
  }

  lemma CloseOne(open: nat)
    requires open > 0
    ensures Depth([Close], open) == open - 1
  {
  }

  lemma PiecesBalance(rule: Rule, open: nat)
    requires !rule.Malformed?
    ensures Depth(Group(rule), open) == open && Depth(Joint(rule), open) == open + 1
  {
    var j := Joint(rule);
    assert j[1..] == [Open] && [Open][1..] == [];
    assert Depth([Open], open) == open + 1;
    assert [Close][1..] == [] && [Close, Close][1..] == [Close];
    assert Depth([Close], open + 1) == open;
    assert Depth([Close, Close], open + 2) == open;
    if rule.Match? {
      TestDepth(rule.test, [Close], open);
    } else {
      var g := Group(rule);
      assert g[1..] == [Not, Open, Test(rule.test), Close, Close];
      assert g[1..][1..] == [Open, Test(rule.test)] + [Close, Close];
      assert Depth(g[1..][1..], open + 1) == Depth(g, open);
      TestDepth(rule.test, [Close, Close], open + 1);
    }
  }

  lemma TestDepth(test: string, rest: seq<Token>, open: nat)
    ensures Depth([Open, Test(test)] + rest, open) == Depth(rest, open + 1)
  {
    var ts := [Open, Test(test)] + rest;
    assert ts[1..] == [Test(test)] + rest && ts[1..][1..] == rest;
  }
}
