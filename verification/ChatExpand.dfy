/** Chat script variables and their expansion in strings. */
module ChatExpand {

  datatype Option<T> = None | Some(value: T)

  const NUL := '\0'
  const PREFIX := '$'
  const MAX_VARNAME: nat := 100
  const BAUDRATE := "$Baudrate"
  const MATCHED := "$matchedString"

  /** Characters as the "C" locale classifies them. */
  predicate Upper(c: char) { 'A' <= c <= 'Z' }

  predicate Letter(c: char) { Upper(c) || 'a' <= c <= 'z' }

  predicate NameChar(c: char) { Letter(c) || '0' <= c <= '9' || c == '_' }

  /** The character at `k`, strings being terminated by a NUL. */
  function At(s: string, k: nat): char {
    if k < |s| then s[k] else NUL
  }

  // ---- Names in strings ----

  /** How many name characters `s` starts with, at most `max`. */
  function NameLength(s: string, max: nat): (n: nat)
    ensures n <= |s| && n <= max && forall i | 0 <= i < n :: NameChar(s[i])
    ensures n < |s| && n < max ==> !NameChar(s[n])
    decreases max
  {
    if max == 0 || s == "" || !NameChar(s[0]) then 0 else 1 + NameLength(s[1..], max - 1)
  }

  /** A variable name found in a string, and the characters it takes there with its braces. */
  datatype Name = Name(text: string, width: nat)

  function Named(s: string, max: nat, strict: bool): (r: Option<Name>)
    requires max > 0
    ensures r.Some? ==> 0 < |r.value.text| < max && Letter(r.value.text[0])
    ensures r.Some? ==> r.value.width <= |s| && forall i | 0 <= i < |r.value.text| :: NameChar(r.value.text[i])
  {
    var brace := if At(s, 0) == '{' then 1 else 0;
    if !Letter(At(s, brace)) then None
    else
      var n := NameLength(s[brace..], max - 1);
      if n == 0 || (brace == 1 && At(s, brace + n) != '}') || (strict && At(s, 2 * brace + n) != NUL) then None
      else Some(Name(s[brace..][..n], 2 * brace + n))
  }

  lemma {:induction false} NameLengthIs(s: string, max: nat, n: nat)
    requires n <= |s| && n <= max && forall i | 0 <= i < n :: NameChar(s[i])
    requires n < |s| && n < max ==> !NameChar(s[n])
    ensures NameLength(s, max) == n
    decreases n
  {
    if n > 0 {
      NameLengthIs(s[1..], max - 1, n - 1);
    }
  }

  /** Copies the name characters from position `k` on. */
  method CopyName(s: string, k: nat, max: nat) returns (text: string)
    requires k <= |s|
    ensures text == s[k..][..NameLength(s[k..], max)]
  {
    hide NameChar, NameLength;
    text := "";
    while k + |text| < |s| && NameChar(s[k + |text|]) && |text| < max
      invariant |text| <= max && k + |text| <= |s|
      invariant text == s[k..][..|text|] && forall i | 0 <= i < |text| :: NameChar(text[i])
    {
      assert s[k..][|text|] == s[k + |text|];
      text := text + [s[k + |text|]];
    }
    NameLengthIs(s[k..], max, |text|);
  }

  method Extract(s: string, max: nat, strict: bool) returns (r: Option<Name>)
    requires max > 0
    ensures r == Named(s, max, strict)
  {
    hide NameChar, NameLength, Letter;
    var brace := if At(s, 0) == '{' then 1 else 0;
    if !Letter(At(s, brace)) {
      return None;
    }
    var text := CopyName(s, brace, max - 1);
    var n := |text|;
    if n == 0 || (brace == 1 && At(s, brace + n) != '}') || (strict && At(s, 2 * brace + n) != NUL) {
      return None;
    }
    return Some(Name(text, n + 2 * brace));
  }

  /** A name standing alone is extracted as itself, braces or not. */
  lemma NameOfName(text: string, max: nat)
    requires 0 < |text| < max && Letter(text[0]) && forall i | 0 <= i < |text| :: NameChar(text[i])
    ensures Named(text, max, true) == Some(Name(text, |text|))
    ensures Named("{" + text + "}", max, true) == Some(Name(text, |text| + 2))
  {
    assert text[0..][..|text|] == text;
    var b := "{" + text + "}";
    assert b[1..] == text + "}" && b[1] == text[0];
    NameLengthIs(b[1..], max - 1, |text|);
    assert b[1..][..|text|] == text;
    NameLengthIs(text[0..], max - 1, |text|);
  }

  // ---- Variables ----

  datatype Var = Var(name: string, value: string)

  /** The meaning of a list of variables: the first of a name counts. */
  function Bindings(vars: seq<Var>): map<string, string> {
    if vars == [] then map[] else Bindings(vars[1..])[vars[0].name := vars[0].value]
  }

  predicate Distinct(vars: seq<Var>) {
    forall i, j | 0 <= i < j < |vars| :: vars[i].name != vars[j].name
  }

  /** Names are not empty and start with a letter. */
  predicate Proper(vars: seq<Var>) {
    forall i | 0 <= i < |vars| :: Letter(At(vars[i].name, 0))
  }

  lemma {:induction false} Unbound(vars: seq<Var>, name: string)
    requires forall i | 0 <= i < |vars| :: vars[i].name != name
    ensures name !in Bindings(vars)
  {
    if vars != [] {
      Unbound(vars[1..], name);
    }
  }

  function ToFront(vars: seq<Var>, i: nat): seq<Var>
    requires i < |vars|
  {
    [vars[i]] + vars[..i] + vars[i + 1..]
  }

  /** Moving the first variable of its name to the front changes no lookup. */
  lemma {:induction false} ToFrontKeepsBindings(vars: seq<Var>, i: nat)
    requires i < |vars| && forall k | 0 <= k < i :: vars[k].name != vars[i].name
    ensures Bindings(ToFront(vars, i)) == Bindings(vars)
    ensures vars[i].name in Bindings(vars) && Bindings(vars)[vars[i].name] == vars[i].value
  {
    hide Bindings, ToFront;
    var f, v, rest := ToFront(vars, i), vars[i], vars[1..];
    assert vars == [vars[0]] + rest;
    BindingsCons(vars[0], rest);
    if i == 0 {
      ToFrontNothing(vars);
    } else {
      ToFrontKeepsBindings(rest, i - 1);
      var others := ToFrontTwice(vars, i);
      BindingsCons(vars[0], [v] + others);
      TwoInFront(v, vars[0], others);
    }
  }

  lemma ToFrontNothing(vars: seq<Var>)
    requires vars != []
    ensures ToFront(vars, 0) == vars
  {
  }

  lemma ToFrontTwice(vars: seq<Var>, i: nat) returns (others: seq<Var>)
    requires 0 < i < |vars|
    ensures ToFront(vars[1..], i - 1) == [vars[i]] + others
    ensures ToFront(vars, i) == [vars[i]] + ([vars[0]] + others)
  {
    others := vars[1..i] + vars[i + 1..];
    assert vars[..i] == [vars[0]] + vars[1..i];
    assert vars[1..][..i - 1] == vars[1..i] && vars[1..][i..] == vars[i + 1..];
  }

  lemma BindingsCons(v: Var, vars: seq<Var>)
    ensures Bindings([v] + vars) == Bindings(vars)[v.name := v.value]
  {
    assert ([v] + vars)[1..] == vars;
  }

  lemma TwoInFront(v: Var, w: Var, vars: seq<Var>)
    requires v.name != w.name
    ensures Bindings([v] + ([w] + vars)) == Bindings([w] + ([v] + vars))
  {
    BindingsCons(w, vars);
    BindingsCons(v, vars);
    BindingsCons(v, [w] + vars);
    BindingsCons(w, [v] + vars);
  }

  lemma ToFrontKeepsContents(vars: seq<Var>, i: nat)
    requires i < |vars|
    ensures multiset(ToFront(vars, i)) == multiset(vars)
    ensures Distinct(vars) ==> Distinct(ToFront(vars, i))
    ensures Proper(vars) ==> Proper(ToFront(vars, i))
  {
    hide ToFront, Distinct, Proper;
    var f := ToFront(vars, i);
    ToFrontMultiset(vars, i);
    forall k | 0 <= k < |f| ensures Place(i, k) < |vars| && f[k] == vars[Place(i, k)] && |f| == |vars| {
      ToFrontAt(vars, i, k);
    }
    if Distinct(vars) {
      MovedDistinct(vars, f, i);
    }
    if Proper(vars) {
      MovedProper(vars, f, i);
    }
  }

  lemma ToFrontMultiset(vars: seq<Var>, i: nat)
    requires i < |vars|
    ensures multiset(ToFront(vars, i)) == multiset(vars)
  {
    assert vars == vars[..i] + [vars[i]] + vars[i + 1..];
  }

  /** Where the variable now at `k` was before. */
  function Place(i: nat, k: nat): nat {
    if k == 0 then i else if k <= i then k - 1 else k
  }

  lemma ToFrontAt(vars: seq<Var>, i: nat, k: nat)
    requires i < |vars| && k < |ToFront(vars, i)|
    ensures |ToFront(vars, i)| == |vars| && Place(i, k) < |vars| && ToFront(vars, i)[k] == vars[Place(i, k)]
  {
  }

  lemma MovedDistinct(vars: seq<Var>, f: seq<Var>, i: nat)
    requires forall k | 0 <= k < |f| :: Place(i, k) < |vars| && f[k] == vars[Place(i, k)]
    requires Distinct(vars)
    ensures Distinct(f)
  {
    forall j, k | 0 <= j < k < |f| ensures f[j].name != f[k].name {
      assert Place(i, j) != Place(i, k);
    }
  }

  lemma MovedProper(vars: seq<Var>, f: seq<Var>, i: nat)
    requires forall k | 0 <= k < |f| :: Place(i, k) < |vars| && f[k] == vars[Place(i, k)]
    requires Proper(vars)
    ensures Proper(f)
  {
    hide Letter;
  }

  /** Assigning to the variable in front. */
  lemma FrontAssigned(vars: seq<Var>, value: string)
    requires vars != [] && Distinct(vars) && Proper(vars)
    ensures Distinct(vars[0 := Var(vars[0].name, value)]) && Proper(vars[0 := Var(vars[0].name, value)])
    ensures Bindings(vars[0 := Var(vars[0].name, value)]) == Bindings(vars)[vars[0].name := value]
  {
    var v := vars[0 := Var(vars[0].name, value)];
    assert v[1..] == vars[1..];
  }

  /** Adding a variable in front. */
  lemma FrontAdded(vars: seq<Var>, v: Var)
    requires Distinct(vars) && Proper(vars) && v.name !in Bindings(vars) && Letter(At(v.name, 0))
    ensures Distinct([v] + vars) && Proper([v] + vars)
    ensures Bindings([v] + vars) == Bindings(vars)[v.name := v.value]
  {
    forall k | 0 <= k < |vars| ensures vars[k].name != v.name {
      Bound(vars, k);
    }
    assert ([v] + vars)[1..] == vars;
  }

  /** One of the interpreter's two lists of variables. */
  class VarList {
    var vars: seq<Var>

    ghost predicate Valid()
      reads this
    {
      Distinct(vars) && Proper(vars)
    }

    constructor ()
      ensures Valid() && vars == []
    {
      vars := [];
    }

    /** The variable of a name; it is then first of its list. */
    method Find(name: string) returns (r: Option<string>)
      requires Valid()
      modifies this
      ensures Valid() && Bindings(vars) == old(Bindings(vars)) && multiset(vars) == multiset(old(vars))
      ensures r == if name in Bindings(vars) then Some(Bindings(vars)[name]) else None
      ensures r.Some? ==> vars != [] && vars[0] == Var(name, r.value)
    {
      hide Distinct, Proper;
      var i := 0;
      while i < |vars| && vars[i].name != name
        invariant 0 <= i <= |vars|
        invariant forall k | 0 <= k < i :: vars[k].name != name
      {
        i := i + 1;
      }
      if i == |vars| {
        Unbound(vars, name);
        return None;
      }
      ToFrontKeepsBindings(vars, i);
      ToFrontKeepsContents(vars, i);
      r := Some(vars[i].value);
      vars := ToFront(vars, i);
    }

    method Assign(name: string, value: string)
      requires Valid() && Letter(At(name, 0))
      modifies this
      ensures Valid() && Bindings(vars) == old(Bindings(vars))[name := value]
    {
      hide Distinct, Bindings, Proper;
      var found := Find(name);
      if found.Some? {
        FrontAssigned(vars, value);
        vars := vars[0 := Var(name, value)];
      } else {
        FrontAdded(vars, Var(name, value));
        vars := [Var(name, value)] + vars;
      }
    }

    /** Removes what is named like a match variable. */
    method Purge()
      modifies this
      ensures vars == Purged(old(vars))
    {
      hide MatchVariable, Purged;
      var i := 0;
      ghost var was := vars;
      PurgeDone(was, was);
      while i < |vars|
        invariant 0 <= i <= |vars|
        invariant vars[..i] + Purged(vars[i..]) == Purged(was)
        decreases |vars| - i
      {
        PurgeStep(vars, i);
        if MatchVariable(vars[i].name) {
          vars := vars[..i] + vars[i + 1..];
        } else {
          i := i + 1;
        }
      }
      PurgeDone(vars, was);
    }

    method Clear()
      modifies this
      ensures Valid() && vars == []
    {
      vars := [];
    }
  }

  /** The test for the name of an old match variable. It compares with "$matchedString". */
  predicate MatchVariable(name: string) {
    MATCHED <= name && forall i | |MATCHED| <= i < |name| :: '0' <= name[i] <= '9'
  }

  function Purged(vars: seq<Var>): seq<Var> {
    if vars == [] then []
    else if MatchVariable(vars[0].name) then Purged(vars[1..])
    else [vars[0]] + Purged(vars[1..])
  }

  lemma PurgeStep(vars: seq<Var>, i: nat)
    requires i < |vars|
    ensures MatchVariable(vars[i].name) ==>
      var next := vars[..i] + vars[i + 1..]; next[..i] + Purged(next[i..]) == vars[..i] + Purged(vars[i..])
    ensures !MatchVariable(vars[i].name) ==>
      vars[..i + 1] + Purged(vars[i + 1..]) == vars[..i] + Purged(vars[i..])
  {
    hide MatchVariable;
    var next := vars[..i] + vars[i + 1..];
    assert vars[i..][1..] == vars[i + 1..] == next[i..] && next[..i] == vars[..i];
    assert vars[..i + 1] == vars[..i] + [vars[i]];
  }

  lemma PurgeDone(vars: seq<Var>, was: seq<Var>)
    ensures vars[..|vars|] + Purged(vars[|vars|..]) == vars
    ensures was[..0] + Purged(was[0..]) == Purged(was)
  {
    assert was[0..] == was;
    assert was[..0] + Purged(was) == Purged(was);
  }

  /** Names being kept without their '$', nothing is ever removed. */
  lemma {:induction false} NothingPurged(vars: seq<Var>)
    requires Proper(vars)
    ensures Purged(vars) == vars
  {
    if vars != [] {
      assert Letter(At(vars[0].name, 0));
      assert Proper(vars[1..]) by {
        forall i | 0 <= i < |vars[1..]| ensures Letter(At(vars[1..][i].name, 0)) {
          assert vars[1..][i] == vars[i + 1];
        }
      }
      NothingPurged(vars[1..]);
    }
  }

  lemma {:induction false} Bound(vars: seq<Var>, k: nat)
    requires k < |vars|
    ensures vars[k].name in Bindings(vars)
  {
    if k > 0 {
      assert vars[1..][k - 1] == vars[k];
      Bound(vars[1..], k - 1);
    }
  }

  // ---- Expansion ----

  /** What the variables mean: names that start with a capital live as long as the interpreter. */
  datatype Env = Env(globals: map<string, string>, temps: map<string, string>) {

    function Scope(name: string): map<string, string> {
      if Upper(At(name, 0)) then globals else temps
    }

    /** A variable not set expands to nothing. */
    function Value(name: string): string {
      if name in Scope(name) then Scope(name)[name] else ""
    }

    function With(name: string, value: string): Env {
      if Upper(At(name, 0)) then this.(globals := globals[name := value])
      else this.(temps := temps[name := value])
    }
  }

  /** A string such as "$name" or "${name}", of which the first character is not looked at. */
  predicate Refers(reference: string) {
    reference != "" && Named(reference[1..], MAX_VARNAME, true).Some?
  }

  function SetTo(env: Env, reference: string, value: string): Env {
    if Refers(reference) then env.With(Named(reference[1..], MAX_VARNAME, true).value.text, value) else env
  }

  /** What the text at the head of a string expands to, and how much of the string that is. */
  datatype Piece = Piece(text: string, width: nat)

  function Head(env: Env, s: string): (p: Piece)
    requires s != ""
    ensures 0 < p.width <= |s|
  {
    if s[0] != PREFIX then Piece([s[0]], 1)
    else if At(s, 1) == PREFIX then Piece([PREFIX], 2)
    else
      var name := Named(s[1..], MAX_VARNAME - 1, false);
      if name.None? then Piece([PREFIX], 1)
      else Piece(env.Value(name.value.text), 1 + name.value.width)
  }

  function Expand(env: Env, s: string): string {
    if s == "" then "" else var p := Head(env, s); p.text + Expand(env, s[p.width..])
  }

  lemma {:induction false} ExpandPlain(env: Env, s: string)
    requires PREFIX !in s
    ensures Expand(env, s) == s
  {
    if s != "" {
      assert s == [s[0]] + s[1..];
      ExpandPlain(env, s[1..]);
    }
  }

  /** The expansion of an assigned variable is its value... */
  lemma AssignedExpands(env: Env, name: string, value: string)
    requires 0 < |name| < MAX_VARNAME - 1 && Letter(name[0]) && forall i | 0 <= i < |name| :: NameChar(name[i])
    ensures SetTo(env, "$" + name, value) == env.With(name, value)
    ensures Expand(env.With(name, value), "$" + name) == value
    ensures Expand(env.With(name, value), "${" + name + "}") == value
  {
    hide NameChar, Letter, Expand, Head, Named;
    NameOfName(name, MAX_VARNAME);
    var env' := env.With(name, value);
    assert env'.Value(name) == value;
    Dollar(name);
    BareHead(env', name);
    BracedHead(env', name);
    AllHead(env', "$" + name, value);
    AllHead(env', "${" + name + "}", value);
  }

  lemma BareHead(env: Env, name: string)
    requires 0 < |name| < MAX_VARNAME - 1 && Letter(name[0]) && forall i | 0 <= i < |name| :: NameChar(name[i])
    ensures Head(env, "$" + name) == Piece(env.Value(name), 1 + |name|)
  {
    hide NameChar, Named;
    NameOfName(name, MAX_VARNAME - 1);
    Loosely(name, MAX_VARNAME - 1);
    Dollar(name);
    assert At("$" + name, 1) == name[0];
  }

  lemma Loosely(s: string, max: nat)
    requires max > 0 && Named(s, max, true).Some?
    ensures Named(s, max, false) == Named(s, max, true)
  {
  }

  lemma BracedHead(env: Env, name: string)
    requires 0 < |name| < MAX_VARNAME - 1 && Letter(name[0]) && forall i | 0 <= i < |name| :: NameChar(name[i])
    ensures Head(env, "${" + name + "}") == Piece(env.Value(name), |"${" + name + "}"|)
  {
    hide NameChar, Named, Letter;
    LooseName(name);
    var t := "{" + name + "}";
    Dollar(t);
    assert "${" + name + "}" == "$" + t;
    assert At("$" + t, 1) == '{';
  }

  lemma Dollar(t: string)
    ensures ("$" + t)[1..] == t && ("$" + t)[0] == PREFIX
  {
  }

  lemma AllHead(env: Env, s: string, value: string)
    requires s != "" && Head(env, s) == Piece(value, |s|)
    ensures Expand(env, s) == value
  {
    hide Head;
    assert s[|s|..] == "";
    ExpandNothing(env);
  }

  /** ...unless its name has 99 characters. Such a variable can be assigned but not read: in braces it
      stays as it is, and without them the first 98 are taken for the name. */
  lemma LongestNameStays(env: Env, name: string)
    requires |name| == MAX_VARNAME - 1 && Letter(name[0]) && forall i | 0 <= i < |name| :: NameChar(name[i])
    ensures forall value :: SetTo(env, "$" + name, value) == env.With(name, value)
    ensures Expand(env, "${" + name + "}") == "${" + name + "}"
    ensures Expand(env, "$" + name) == env.Value(name[..|name| - 1]) + name[|name| - 1..]
  {
    hide Expand, Head;
    NameOfName(name, MAX_VARNAME);
    Dollar(name);
    LongestInBraces(env, name);
    LongestBare(env, name);
  }

  lemma LongestInBraces(env: Env, name: string)
    requires |name| == MAX_VARNAME - 1 && Letter(name[0]) && forall i | 0 <= i < |name| :: NameChar(name[i])
    ensures Expand(env, "${" + name + "}") == "${" + name + "}"
  {
    hide Expand, NameLength, Named;
    var t := "{" + name + "}";
    var s := "$" + t;
    LongestNotNamed(name);
    Dollar(t);
    assert Head(env, s) == Piece([PREFIX], 1);
    ExpandStep(env, s);
    assert PREFIX !in name;
    ExpandPlain(env, t);
    assert s == "${" + name + "}";
  }

  lemma LongestNotNamed(name: string)
    requires |name| == MAX_VARNAME - 1 && Letter(name[0]) && forall i | 0 <= i < |name| :: NameChar(name[i])
    ensures Named("{" + name + "}", MAX_VARNAME - 1, false) == None
  {
    hide NameLength;
    var t := "{" + name + "}";
    assert t[1..] == name + "}" && t[1] == name[0];
    NameLengthIs(t[1..], MAX_VARNAME - 2, MAX_VARNAME - 2);
    assert At(t, MAX_VARNAME - 1) == name[MAX_VARNAME - 2] != '}';
  }

  lemma LongestBare(env: Env, name: string)
    requires |name| == MAX_VARNAME - 1 && Letter(name[0]) && forall i | 0 <= i < |name| :: NameChar(name[i])
    ensures Expand(env, "$" + name) == env.Value(name[..|name| - 1]) + name[|name| - 1..]
  {
    hide Expand;
    var s := "$" + name;
    assert s[1..] == name && name[0..] == name;
    NameLengthIs(name, MAX_VARNAME - 2, MAX_VARNAME - 2);
    assert Letter(At(name, 0)) && At(name, 0) != '{';
    assert Named(name, MAX_VARNAME - 1, false) == Some(Name(name[..MAX_VARNAME - 2], MAX_VARNAME - 2));
    var text := env.Value(name[..MAX_VARNAME - 2]);
    assert At(s, 1) == name[0] != PREFIX;
    assert Head(env, s) == Piece(text, MAX_VARNAME - 1);
    ExpandStep(env, s);
    var last := name[|name| - 1..];
    assert s[MAX_VARNAME - 1..] == last;
    assert NameChar(last[0]) && last[0] != PREFIX;
    ExpandPlain(env, last);
  }

  lemma ExpandStep(env: Env, s: string)
    requires s != ""
    ensures Expand(env, s) == Head(env, s).text + Expand(env, s[Head(env, s).width..])
  {
  }

  lemma LooseName(name: string)
    requires 0 < |name| < MAX_VARNAME - 1 && Letter(name[0]) && forall i | 0 <= i < |name| :: NameChar(name[i])
    ensures Named("{" + name + "}", MAX_VARNAME - 1, false) == Some(Name(name, |name| + 2))
  {
    var t := "{" + name + "}";
    assert t[1..] == name + "}" && t[1] == name[0];
    NameLengthIs(t[1..], MAX_VARNAME - 2, |name|);
    assert t[1..][..|name|] == name;
  }

  // ---- Assignment ----

  datatype Setting = NoName | Refused | Done

  /** Whether the text is a speed and the device, if there is one, takes it. */
  predicate Takes(device: string -> bool, text: string) {
    text != "" && device(text)
  }

  function NoDevice(text: string): bool { false }

  function Outcome(reference: string, text: string, pre: bool, device: string -> bool): Setting {
    if !Refers(reference) then NoName
    else if reference == BAUDRATE && !pre && !Takes(device, text) then Refused
    else Done
  }

  // ---- What a match leaves behind ----

  /** An exact match of this text, or a regular expression's whole match and its groups. */
  datatype Match = Exact(text: string) | Regex(texts: seq<string>)

  function Numeral(n: nat): string {
    (if n < 10 then "" else Numeral(n / 10)) + ['0' + (n % 10) as char]
  }

  /** After the first `k` of these texts. */
  function Groups(env: Env, texts: seq<string>, k: nat): Env
    requires k <= |texts|
  {
    if k == 0 then env
    else
      var before := Groups(env, texts, k - 1);
      var whole := if k == 1 then SetTo(before, MATCHED, texts[0]) else before;
      SetTo(whole, MATCHED + Numeral(k - 1), texts[k - 1])
  }

  function Captured(env: Env, m: Match): Env {
    match m
    case Exact(text) => SetTo(env, MATCHED, text)
    case Regex(texts) => Groups(env, texts, |texts|)
  }

  lemma SpecialName(k: nat)
    ensures MATCHED + Numeral(k) != BAUDRATE
  {
    assert (MATCHED + Numeral(k))[1] == 'm';
  }

  const WHOLE := "matchedString"

  function GroupName(k: nat): string { WHOLE + Numeral(k) }

  /** No regular expression has more groups than an int counts. */
  const MAX_GROUPS := 0x8000_0000

  lemma {:induction false} NumeralShort(n: nat, width: nat, bound: nat)
    requires n < bound && bound <= Power(width) && width > 0
    ensures 0 < |Numeral(n)| <= width && forall i | 0 <= i < |Numeral(n)| :: '0' <= Numeral(n)[i] <= '9'
    decreases n
  {
    if n >= 10 {
      assert width > 1;
      NumeralShort(n / 10, width - 1, Power(width - 1));
    }
  }

  function Power(width: nat): nat {
    if width == 0 then 1 else 10 * Power(width - 1)
  }

  lemma {:induction false} NumeralInjective(j: nat, k: nat)
    requires Numeral(j) == Numeral(k)
    ensures j == k
    decreases j
  {
    var s, t := Numeral(j), Numeral(k);
    assert s[|s| - 1] == t[|t| - 1] && j % 10 == k % 10;
    assert |Numeral(j / 10)| > 0 && |Numeral(k / 10)| > 0;
    assert j < 10 <==> k < 10;
    if j >= 10 {
      assert s[..|s| - 1] == Numeral(j / 10) && t[..|t| - 1] == Numeral(k / 10);
      NumeralInjective(j / 10, k / 10);
    }
  }

  lemma GroupNames(k: nat)
    requires k < MAX_GROUPS
    ensures Refers(MATCHED + Numeral(k))
    ensures Named((MATCHED + Numeral(k))[1..], MAX_VARNAME, true).value.text == GroupName(k) != WHOLE
    ensures Refers(MATCHED) && Named(MATCHED[1..], MAX_VARNAME, true).value.text == WHOLE
  {
    hide Numeral, Named, NameChar, Letter;
    assert Power(10) >= MAX_GROUPS by {
      assert Power(3) == 1000 && Power(6) == 1000_000 && Power(9) == 1000_000_000;
    }
    NumeralShort(k, 10, MAX_GROUPS);
    var name := GroupName(k);
    assert forall i | 0 <= i < |name| :: NameChar(name[i]) by { GroupChars(k); }
    assert Letter(name[0]) && Letter(WHOLE[0]) && forall i | 0 <= i < |WHOLE| :: NameChar(WHOLE[i]) by {
      WholeChars(k);
    }
    Tails(k);
    NameOfName(name, MAX_VARNAME);
    NameOfName(WHOLE, MAX_VARNAME);
  }

  lemma Tails(k: nat)
    requires |Numeral(k)| > 0
    ensures (MATCHED + Numeral(k))[1..] == GroupName(k) != WHOLE && MATCHED[1..] == WHOLE
    ensures MATCHED + Numeral(k) != "" && |GroupName(k)| == 13 + |Numeral(k)| && |WHOLE| == 13
  {
    hide Numeral;
    assert |GroupName(k)| > |WHOLE|;
  }

  lemma GroupChars(k: nat)
    requires forall i | 0 <= i < |Numeral(k)| :: '0' <= Numeral(k)[i] <= '9'
    ensures forall i | 0 <= i < |GroupName(k)| :: NameChar(GroupName(k)[i])
  {
    hide Numeral;
    WholeChars(k);
    forall i | 0 <= i < |GroupName(k)| ensures NameChar(GroupName(k)[i]) {
      assert GroupName(k)[i] == if i < |WHOLE| then WHOLE[i] else Numeral(k)[i - |WHOLE|];
    }
  }

  lemma WholeChars(k: nat)
    ensures Letter(WHOLE[0]) && Letter(GroupName(k)[0])
    ensures forall i | 0 <= i < |WHOLE| :: NameChar(WHOLE[i])
  {
  }

  /** Setting a match variable. */
  lemma GroupSet(env: Env, k: nat, value: string)
    requires k < MAX_GROUPS
    ensures SetTo(env, MATCHED + Numeral(k), value) == env.(temps := env.temps[GroupName(k) := value])
    ensures SetTo(env, MATCHED, value) == env.(temps := env.temps[WHOLE := value])
  {
    hide Named, Numeral;
    GroupNames(k);
    assert At(GroupName(k), 0) == 'm';
  }

  /** A match sets "$matchedString" to the whole match, "$matchedString0" and so on to the groups, and
      changes no other variable: those of an earlier match with more groups remain. */
  lemma MatchVariables(env: Env, m: Match)
    requires m.Regex? ==> 0 < |m.texts| <= MAX_GROUPS
    ensures Captured(env, m).globals == env.globals
    ensures Captured(env, m).Value(WHOLE) == if m.Exact? then m.text else m.texts[0]
    ensures m.Regex? ==> forall k | 0 <= k < |m.texts| :: Captured(env, m).Value(GroupName(k)) == m.texts[k]
    ensures forall name | name != WHOLE && (m.Regex? ==> forall k | 0 <= k < |m.texts| :: name != GroupName(k)) ::
      Captured(env, m).Value(name) == env.Value(name)
  {
    hide Numeral, SetTo, Groups, GroupName;
    if m.Exact? {
      GroupSet(env, 0, m.text);
    } else {
      var n := |m.texts|;
      WholeAfter(env, m.texts, n);
      forall k | 0 <= k < n ensures Captured(env, m).Value(GroupName(k)) == m.texts[k] {
        GroupAfter(env, m.texts, n, k);
        Lowercase(k);
      }
      forall name | name != WHOLE && forall k | 0 <= k < n :: name != GroupName(k)
        ensures Captured(env, m).Value(name) == env.Value(name)
      {
        OtherAfter(env, m.texts, n, name);
      }
    }
  }

  /** "$matchedString" expands to the whole match. */
  lemma WholeExpands(env: Env, m: Match)
    requires m.Regex? ==> 0 < |m.texts| <= MAX_GROUPS
    ensures Expand(Captured(env, m), MATCHED) == if m.Exact? then m.text else m.texts[0]
  {
    hide Captured, Expand, NameChar, Letter, Numeral;
    MatchVariables(env, m);
    WholeChars(0);
    ReadsBare(Captured(env, m), WHOLE);
    DollarWhole();
  }

  lemma DollarWhole()
    ensures "$" + WHOLE == MATCHED
  {
  }

  lemma ReadsBare(env: Env, name: string)
    requires 0 < |name| < MAX_VARNAME - 1 && Letter(name[0]) && forall i | 0 <= i < |name| :: NameChar(name[i])
    ensures Expand(env, "$" + name) == env.Value(name)
  {
    hide Expand, Head, NameChar, Letter;
    BareHead(env, name);
    AllHead(env, "$" + name, env.Value(name));
  }

  lemma Lowercase(k: nat)
    ensures !Upper(At(GroupName(k), 0))
  {
    hide Numeral;
    assert GroupName(k)[0] == WHOLE[0];
  }

  /** One more group. */
  lemma GroupStep(env: Env, texts: seq<string>, k: nat)
    requires k < |texts| <= MAX_GROUPS
    ensures Groups(env, texts, k + 1).globals == Groups(env, texts, k).globals
    ensures var before := Groups(env, texts, k).temps;
      Groups(env, texts, k + 1).temps ==
        (if k == 0 then before[WHOLE := texts[0]] else before)[GroupName(k) := texts[k]]
  {
    hide Numeral, SetTo, GroupName;
    var before := Groups(env, texts, k);
    GroupSet(before, k, texts[0]);
    GroupSet(if k == 0 then SetTo(before, MATCHED, texts[0]) else before, k, texts[k]);
  }

  lemma {:induction false} WholeAfter(env: Env, texts: seq<string>, n: nat)
    requires 0 < n <= |texts| <= MAX_GROUPS
    ensures Groups(env, texts, n).globals == env.globals
    ensures WHOLE in Groups(env, texts, n).temps && Groups(env, texts, n).temps[WHOLE] == texts[0]
  {
    hide Groups, GroupName;
    NoGroups(env, texts);
    GroupStep(env, texts, n - 1);
    OtherName(n - 1);
    if n > 1 {
      WholeAfter(env, texts, n - 1);
    }
  }

  lemma NoGroups(env: Env, texts: seq<string>)
    ensures Groups(env, texts, 0) == env
  {
  }

  lemma OtherName(k: nat)
    requires k < MAX_GROUPS
    ensures GroupName(k) != WHOLE
  {
    hide Numeral, Named;
    GroupNames(k);
  }

  lemma {:induction false} GroupAfter(env: Env, texts: seq<string>, n: nat, k: nat)
    requires k < n <= |texts| <= MAX_GROUPS
    ensures GroupName(k) in Groups(env, texts, n).temps && Groups(env, texts, n).temps[GroupName(k)] == texts[k]
  {
    hide Groups, GroupName;
    GroupStep(env, texts, n - 1);
    if k < n - 1 {
      GroupAfter(env, texts, n - 1, k);
      NamesDiffer(k, n - 1);
    }
  }

  lemma NamesDiffer(j: nat, k: nat)
    requires j != k
    ensures GroupName(j) != GroupName(k)
  {
    hide Numeral;
    if GroupName(j) == GroupName(k) {
      assert GroupName(j)[|WHOLE|..] == Numeral(j) && GroupName(k)[|WHOLE|..] == Numeral(k);
      NumeralInjective(j, k);
    }
  }

  lemma {:induction false} OtherAfter(env: Env, texts: seq<string>, n: nat, name: string)
    requires n <= |texts| <= MAX_GROUPS
    requires name != WHOLE && forall k | 0 <= k < n :: name != GroupName(k)
    ensures Groups(env, texts, n).globals == env.globals
    ensures var now := Groups(env, texts, n).temps;
      (name in now <==> name in env.temps) && (name in now ==> now[name] == env.temps[name])
  {
    hide Groups, GroupName;
    if n == 0 {
      NoGroups(env, texts);
    } else {
      GroupStep(env, texts, n - 1);
      OtherAfter(env, texts, n - 1, name);
    }
  }

  /** The interpreter's variables. */
  class Variables {
    const globals: VarList
    const temps: VarList

    ghost predicate Valid()
      reads this, globals, temps
    {
      globals != temps && globals.Valid() && temps.Valid()
    }

    ghost function Meaning(): Env
      reads globals, temps
    {
      Env.Env(Bindings(globals.vars), Bindings(temps.vars))
    }

    constructor ()
      ensures Valid() && Meaning() == Env.Env(map[], map[]) && fresh(globals) && fresh(temps)
    {
      var g := new VarList();
      var t := new VarList();
      globals, temps := g, t;
    }

    /** Assigns the variable a string refers to. Assigning "$Baudrate" also sets the speed of the
        device, except beforehand (`pre`); what the device refuses is not assigned. */
    method Set(reference: string, value: string, expand: bool, pre: bool, device: string -> bool)
      returns (r: Setting)
      requires Valid()
      modifies globals, temps
      ensures Valid()
      ensures var text := if expand then Expand(old(Meaning()), value) else value;
        && r == Outcome(reference, text, pre, device)
        && Meaning() == if r.Done? then SetTo(old(Meaning()), reference, text) else old(Meaning())
    {
      hide Named, Expand, Letter;
      if reference == "" {
        return NoName;
      }
      var name := Extract(reference[1..], MAX_VARNAME, true);
      if name.None? {
        return NoName;
      }
      var text := value;
      if expand {
        text := ExpandString(value);
      }
      if reference == BAUDRATE && !pre && !Takes(device, text) {
        return Refused;
      }
      if Upper(At(name.value.text, 0)) {
        globals.Assign(name.value.text, text);
      } else {
        temps.Assign(name.value.text, text);
      }
      return Done;
    }

    /** Sets the match variables, having tried to remove those of the match before. */
    method SetMatchVars(m: Match)
      requires Valid() && (m.Regex? ==> m.texts != [])
      modifies globals, temps
      ensures Valid() && Meaning() == Captured(old(Meaning()), m)
    {
      hide Named, Expand, Letter, Bindings, Distinct, Proper, Refers, Purged, Numeral;
      ghost var env := Meaning();
      NothingPurged(temps.vars);
      temps.Purge();
      assert Meaning() == env;
      if m.Exact? {
        var r := Set(MATCHED, m.text, false, false, NoDevice);
      } else {
        var k := 0;
        while k < |m.texts|
          invariant 0 <= k <= |m.texts| && Valid() && Meaning() == Groups(env, m.texts, k)
        {
          if k == 0 {
            var r := Set(MATCHED, m.texts[k], false, false, NoDevice);
          }
          SpecialName(k);
          var r := Set(MATCHED + Numeral(k), m.texts[k], false, false, NoDevice);
          k := k + 1;
        }
      }
    }

    /** The variable an extracted name stands for. */
    method Get(name: string) returns (r: Option<string>)
      requires Valid()
      requires 0 < |name| < MAX_VARNAME && Letter(name[0]) && forall i | 0 <= i < |name| :: NameChar(name[i])
      modifies globals, temps
      ensures Valid() && Meaning() == old(Meaning())
      ensures r == if name in Meaning().Scope(name) then Some(Meaning().Scope(name)[name]) else None
    {
      hide Named;
      NameOfName(name, MAX_VARNAME);
      var n := Extract(name, MAX_VARNAME, true);
      if Upper(At(name, 0)) {
        r := globals.Find(n.value.text);
      } else {
        r := temps.Find(n.value.text);
      }
    }

    /** What stands at position `k` expands to, and how many characters that is. */
    method HeadText(s: string, k: nat) returns (text: string, width: nat)
      requires Valid() && k < |s|
      modifies globals, temps
      ensures Valid() && Meaning() == old(Meaning())
      ensures Piece(text, width) == Head(Meaning(), s[k..])
    {
      hide Named, NameChar, Bindings, Distinct, Proper;
      assert s[k..][1..] == s[k + 1..];
      text, width := [s[k]], 1;
      if s[k] == PREFIX {
        if At(s, k + 1) == PREFIX {
          width := 2;
        } else {
          var name := Extract(s[k + 1..], MAX_VARNAME - 1, false);
          if name.Some? {
            var found := Get(name.value.text);
            text := if found.Some? then found.value else "";
            width := 1 + name.value.width;
          }
        }
      }
    }

    /** One pass over a string, counting (`fill` false) or writing (`fill` true) its expansion. */
    method Pass(s: string, fill: bool, out: array<char>) returns (n: nat)
      requires Valid()
      requires fill ==> out.Length == |Expand(Meaning(), s)| + 1
      modifies globals, temps, out
      ensures Valid() && Meaning() == old(Meaning())
      ensures n == |Expand(Meaning(), s)|
      ensures if fill then out[..n] == Expand(Meaning(), s) else out[..] == old(out[..])
    {
      hide Expand, Head, Named, NameChar, Letter, Bindings, Distinct, Proper;
      ghost var env := Meaning();
      ghost var all := Expand(env, s);
      ghost var done := "";
      n := 0;
      var k := 0;
      while k < |s|
        invariant 0 <= k <= |s| && Valid() && Meaning() == env
        invariant all == done + Expand(env, s[k..]) && n == |done|
        invariant if fill then out[..n] == done else out[..] == old(out[..])
        decreases |s| - k
      {
        ghost var p := Unfold(env, s, k);
        var text, width := HeadText(s, k);
        if fill {
          Write(out, n, text);
        }
        n, k := n + |text|, k + width;
        done := done + text;
      }
      assert s[k..] == "" && Expand(env, s[k..]) == "" by { ExpandNothing(env); }
    }

    /** Counts, allocates, and fills: the two passes agree although each reorders the variables. */
    method ExpandString(s: string) returns (text: string)
      requires Valid()
      modifies globals, temps
      ensures Valid() && Meaning() == old(Meaning())
      ensures text == Expand(Meaning(), s)
    {
      hide Expand;
      var none := new char[0];
      var length := Pass(s, false, none);
      var out := new char[length + 1];
      var j := Pass(s, true, out);
      out[j] := NUL;
      assert j == length;
      text := out[..j];
    }
  }

  lemma ExpandNothing(env: Env)
    ensures Expand(env, "") == ""
  {
  }

  /** The head of what is left of a string, and the rest. */
  lemma Unfold(env: Env, s: string, k: nat) returns (p: Piece)
    requires k < |s|
    ensures p == Head(env, s[k..]) && k + p.width <= |s|
    ensures Expand(env, s[k..]) == p.text + Expand(env, s[k + p.width..])
  {
    hide Head;
    p := Head(env, s[k..]);
    assert s[k..][p.width..] == s[k + p.width..];
  }

  method Write(out: array<char>, n: nat, text: string)
    requires n + |text| <= out.Length
    modifies out
    ensures out[..n + |text|] == old(out[..n]) + text
  {
    forall i | 0 <= i < |text| { out[n + i] := text[i]; }
  }
}
