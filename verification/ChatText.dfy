/** What a string expands to, piece by piece, for any variables. */
module ChatText {
  import opened ChatExpand

  /** A variable's name: a letter, then letters, digits and underscores. */
  predicate IsName(s: string) {
    s != "" && IsLetter(s[0]) && forall i | 0 <= i < |s| :: InName(s[i])
  }

  predicate IsLetter(c: char) { 'A' <= c <= 'Z' || 'a' <= c <= 'z' }

  predicate InName(c: char) { IsLetter(c) || '0' <= c <= '9' || c == '_' }

  /** Names with a capital are global, the others die with the script; a variable not set is empty. */
  function Meaning(env: Env, name: string): string
    requires name != ""
  {
    var vars := if 'A' <= name[0] <= 'Z' then env.globals else env.temps;
    if name in vars then vars[name] else ""
  }

  lemma SameClasses(s: string)
    ensures IsName(s) <==> s != "" && Letter(s[0]) && forall i | 0 <= i < |s| :: NameChar(s[i])
    ensures forall env: Env :: s != "" ==> env.Value(s) == Meaning(env, s)
  {
  }

  /** Other characters stand for themselves. */
  lemma CharacterStays(env: Env, c: char, rest: string)
    requires c != '$'
    ensures Expand(env, [c] + rest) == [c] + Expand(env, rest)
  {
    assert ([c] + rest)[1..] == rest;
  }

  /** Two dollars stand for one. */
  lemma TwoDollars(env: Env, rest: string)
    ensures Expand(env, "$$" + rest) == "$" + Expand(env, rest)
  {
    var s := "$$" + rest;
    assert s[2..] == rest && At(s, 1) == '$';
  }

  /** A reference without braces takes as many name characters as there are, but no more than 98. */
  lemma BareReference(env: Env, name: string, rest: string)
    requires IsName(name) && |name| <= 98
    requires |name| == 98 || rest == "" || !InName(rest[0])
    ensures Expand(env, "$" + name + rest) == Meaning(env, name) + Expand(env, rest)
  {
    hide Named, Expand, IsName;
    SameClasses(name);
    var s, t := "$" + name + rest, name + rest;
    assert s[1..] == t && s[0] == '$' && s[1 + |name|..] == rest;
    assert s[1] == name[0] && At(s, 1) == name[0];
    BareNamed(name, rest);
    ExpandStep(env, s);
  }

  lemma BareNamed(name: string, rest: string)
    requires name != "" && |name| <= 98 && Letter(name[0]) && forall i | 0 <= i < |name| :: NameChar(name[i])
    requires |name| == 98 || rest == "" || !NameChar(rest[0])
    ensures Named(name + rest, MAX_VARNAME - 1, false) == Some(Name(name, |name|))
  {
    hide NameLength;
    var t := name + rest;
    assert t[0..] == t && t[..|name|] == name && At(t, 0) == name[0];
    NameLengthIs(t, MAX_VARNAME - 2, |name|);
  }

  /** One with braces must have its closing brace. */
  lemma BracedReference(env: Env, name: string, rest: string)
    requires IsName(name) && |name| <= 98
    ensures Expand(env, "${" + name + "}" + rest) == Meaning(env, name) + Expand(env, rest)
  {
    hide Named, Expand, IsName;
    SameClasses(name);
    var s, t := "${" + name + "}" + rest, "{" + name + "}" + rest;
    assert s[1..] == t && s[0] == '$' && At(s, 1) == '{';
    assert s[3 + |name|..] == rest;
    BracedNamed(name, rest);
    ExpandStep(env, s);
  }

  lemma BracedNamed(name: string, rest: string)
    requires name != "" && |name| <= 98 && Letter(name[0]) && forall i | 0 <= i < |name| :: NameChar(name[i])
    ensures Named("{" + name + "}" + rest, MAX_VARNAME - 1, false) == Some(Name(name, |name| + 2))
  {
    hide NameLength;
    var t := "{" + name + "}" + rest;
    var u := name + "}" + rest;
    assert t[1..] == u && u[..|name|] == name && At(t, 1) == name[0] && At(t, 1 + |name|) == '}';
    assert |name| < |u| && u[|name|] == '}';
    NameLengthIs(u, MAX_VARNAME - 2, |name|);
  }

  /** A name of `n` characters in braces. */
  predicate Braced(t: string, n: nat) {
    0 < n <= 98 && n + 1 < |t| && t[0] == '{' && IsName(t[1..n + 1]) && t[n + 1] == '}'
  }

  /** What follows a dollar that is to be a reference. */
  ghost predicate StartsReference(t: string) {
    t != "" && (IsLetter(t[0]) || exists n: nat :: Braced(t, n))
  }

  /** Any other dollar stands for itself. */
  lemma DollarStays(env: Env, rest: string)
    requires !StartsReference(rest) && (rest == "" || rest[0] != '$')
    ensures Expand(env, "$" + rest) == "$" + Expand(env, rest)
  {
    hide Named, Expand, StartsReference;
    var s := "$" + rest;
    assert s[1..] == rest && s[0] == '$' && At(s, 1) == At(rest, 0);
    NotNamed(rest);
    ExpandStep(env, s);
  }

  lemma NotNamed(t: string)
    requires !StartsReference(t)
    ensures Named(t, MAX_VARNAME - 1, false).None?
  {
    hide NameLength;
    if t != "" && t[0] == '{' && Letter(At(t, 1)) {
      var n := NameLength(t[1..], MAX_VARNAME - 2);
      if n > 0 && At(t, 1 + n) == '}' {
        FoundBraced(t, n);
      }
    }
  }

  lemma FoundBraced(t: string, n: nat)
    requires t != "" && t[0] == '{' && Letter(At(t, 1)) && 0 < n && At(t, 1 + n) == '}'
    requires n == NameLength(t[1..], MAX_VARNAME - 2)
    ensures Braced(t, n)
  {
    assert t[1..n + 1] == t[1..][..n];
    SameClasses(t[1..n + 1]);
  }

  // ---- Assignment ----

  /** A name of at most 99 characters, plain or in braces, after a first character that may be any. */
  predicate IsReference(reference: string) {
    reference != ""
    && var t := reference[1..];
       || (IsName(t) && |t| <= 99)
       || (|t| > 2 && t[0] == '{' && t[|t| - 1] == '}' && IsName(t[1..|t| - 1]) && |t| <= 101)
  }

  function ReferredTo(reference: string): string
    requires IsReference(reference)
  {
    var t := reference[1..];
    if IsName(t) then t else t[1..|t| - 1]
  }

  /** What can be assigned to. */
  lemma RefersExactly(reference: string, env: Env, value: string)
    requires NUL !in reference
    ensures Refers(reference) <==> IsReference(reference)
    ensures SetTo(env, reference, value) ==
      if IsReference(reference) then env.With(ReferredTo(reference), value) else env
  {
    hide Named, IsName, NameLength;
    if reference != "" {
      var t := reference[1..];
      assert NUL !in t;
      SameClasses(t);
      if IsName(t) && |t| <= 99 {
        SameClasses(t);
        NameOfName(t, MAX_VARNAME);
      } else if IsReference(reference) {
        assert !IsName(t);
        var n := t[1..|t| - 1];
        SameClasses(n);
        NameOfName(n, MAX_VARNAME);
        assert t == "{" + n + "}";
      } else {
        NotReferred(t);
      }
    }
  }

  lemma NotReferred(t: string)
    requires NUL !in t && !(IsName(t) && |t| <= 99)
    requires !(|t| > 2 && t[0] == '{' && t[|t| - 1] == '}' && IsName(t[1..|t| - 1]) && |t| <= 101)
    ensures Named(t, MAX_VARNAME, true).None?
  {
    hide NameLength, IsName;
    var brace := if At(t, 0) == '{' then 1 else 0;
    if Letter(At(t, brace)) {
      var n := NameLength(t[brace..], MAX_VARNAME - 1);
      if brace == 0 && n == |t| {
        assert t[0..] == t;
        SameClasses(t);
      }
      if brace == 1 && At(t, 1 + n) == '}' && n + 2 == |t| {
        assert t[1..][..n] == t[1..|t| - 1];
        SameClasses(t[1..|t| - 1]);
      }
    }
  }

  /** What becomes of an assignment: nothing without a name, and a speed is refused that is empty or that the
      device does not take, except when variables are preset. */
  lemma OutcomeExactly(reference: string, text: string, pre: bool, device: string -> bool)
    requires NUL !in reference
    ensures Outcome(reference, text, pre, device) ==
      if !IsReference(reference) then NoName
      else if reference == "$Baudrate" && !pre && (text == "" || !device(text)) then Refused
      else Done
  {
    hide Refers, IsReference;
    RefersExactly(reference, Env.Env(map[], map[]), "");
  }
}
