/** expand_variables of src/execute.c: every token of the form $NAME... is
    replaced, as a whole, by the value of NAME, taken from the environment
    first and from the shell variables second; other tokens are left as they
    are. The environment (getenv) is a map given as a parameter. */
module Expansion {
  import opened ShellBase
  import opened ArgList
  import opened Variables

  /** Length of the run of name characters of s starting at j, capped so that
      the name fits a buffer of ARGLEN bytes. */
  function NameEnd(s: string, j: nat): (e: nat)
    requires j <= |s|
    ensures j <= e <= |s|
    decreases |s| - j
  {
    if j < |s| && j < ARGLEN - 1 && IsNameChar(s[j]) then NameEnd(s, j + 1) else j
  }

  /** The variable name after '$': the longest prefix of letters, digits and
      '_', at most ARGLEN - 1 characters long. */
  function LeadingName(s: string): (r: string)
  {
    s[..NameEnd(s, 0)]
  }

  lemma {:induction false} NameEndShape(s: string, j: nat)
    requires j <= |s| && j <= ARGLEN - 1
    ensures var e := NameEnd(s, j);
      e <= ARGLEN - 1 && (forall k :: j <= k < e ==> IsNameChar(s[k])) &&
      (e < |s| && e < ARGLEN - 1 ==> !IsNameChar(s[e]))
    decreases |s| - j
  {
    if j < |s| && j < ARGLEN - 1 && IsNameChar(s[j]) {
      NameEndShape(s, j + 1);
    }
  }

  /** The name is a prefix made of name characters, no longer than
      ARGLEN - 1, and it stops only at a character that cannot be part of a
      name, at the end, or at the cap. */
  lemma LeadingNameShape(s: string)
    ensures var r := LeadingName(s);
      r <= s && |r| <= ARGLEN - 1 && (forall c <- r :: IsNameChar(c)) &&
      (|r| < |s| && |r| < ARGLEN - 1 ==> !IsNameChar(s[|r|]))
  {
    NameEndShape(s, 0);
    var r := LeadingName(s);
    assert forall k :: 0 <= k < |r| ==> r[k] == s[k];
  }

  /** A name followed by something that cannot continue it is read exactly. */
  lemma LeadingNameOf(name: string, suffix: string)
    requires |name| <= ARGLEN - 1 && forall c <- name :: IsNameChar(c)
    requires suffix == [] || |name| == ARGLEN - 1 || !IsNameChar(suffix[0])
    ensures LeadingName(name + suffix) == name
  {
    var s := name + suffix;
    NameEndIs(s, 0, |name|);
    assert s[..|name|] == name;
  }

  lemma {:induction false} NameEndIs(s: string, j: nat, e: nat)
    requires j <= e <= |s| && e <= ARGLEN - 1
    requires forall k :: j <= k < e ==> IsNameChar(s[k])
    requires e == |s| || e == ARGLEN - 1 || !IsNameChar(s[e])
    ensures NameEnd(s, j) == e
    decreases e - j
  {
    if j < e {
      NameEndIs(s, j + 1, e);
    }
  }

  /** What expand_variables makes of one token, given the environment and the
      shell variables. */
  function ExpandToken(t: string, env: map<string, string>, vars: seq<(string, string)>): (r: string)
    ensures r != t ==>
      |t| > 1 && t[0] == '$' && (r in env.Values || exists j :: 0 <= j < |vars| && vars[j].1 == r)
  {
    if |t| > 1 && t[0] == '$' then
      var name := LeadingName(t[1..]);
      if name == [] then t
      else if name in env then env[name]
      else match Lookup(vars, name)
        case Some(v) => v
        case None => t
    else t
  }

  /** Every token expanded. */
  function ExpandAll(args: seq<string>, env: map<string, string>, vars: seq<(string, string)>): (r: seq<string>)
    ensures |r| == |args|
  {
    seq(|args|, i requires 0 <= i < |args| => ExpandToken(args[i], env, vars))
  }

  /** The scanning loop of expand_variables (source lines 108-118). */
  method ScanName(s: string) returns (name: string)
    ensures name == LeadingName(s)
  {
    var j := 0;
    while j < |s| && j < ARGLEN - 1
      invariant j <= |s| && j <= ARGLEN - 1 && NameEnd(s, j) == NameEnd(s, 0)
    {
      if IsNameChar(s[j]) {
        j := j + 1;
      } else {
        break;
      }
    }
    name := s[..j];
  }

  /** One token, as the body of the loop of expand_variables treats it. */
  method ExpandOne(t: string, env: map<string, string>, store: VarStore) returns (r: string)
    requires store.Valid()
    ensures r == ExpandToken(t, env, store.Bindings())
  {
    r := t;
    if |t| > 1 && t[0] == '$' {
      var name := ScanName(t[1..]);
      if name == [] {
        return;
      }
      if name in env {
        r := env[name];
      } else {
        var v := store.Get(name);
        if v.Some? {
          r := v.value;
        }
      }
    }
  }

  /** expand_variables: every token of the list is replaced by its expansion;
      the NULL and the slots after it are untouched. */
  method ExpandVariables(a: array<Option<string>>, env: map<string, string>, store: VarStore)
    requires |Args(a[..])| < a.Length && store.Valid()
    modifies a
    ensures Args(a[..]) == ExpandAll(Args(old(a[..])), env, store.Bindings())
    ensures forall j :: |Args(old(a[..]))| <= j < a.Length ==> a[j] == old(a[j])
  {
    ghost var s := a[..];
    ghost var args := Args(s);
    ghost var vars := store.Bindings();
    var i := 0;
    while a[i] != None
      invariant i <= |args|
      invariant forall j :: 0 <= j < i ==> a[j] == Some(ExpandToken(args[j], env, vars))
      invariant forall j :: i <= j < a.Length ==> a[j] == s[j]
      decreases |args| - i
    {
      var t := ExpandOne(a[i].value, env, store);
      a[i] := Some(t);
      i := i + 1;
    }
    ArgsIs(a[..], ExpandAll(args, env, vars));
  }

  // ---------------------------------------------------------------------
  // Properties of the expansion

  /** A bound name is replaced by its value, the environment taking
      precedence over shell variables, and anything after the name (such as
      "/x" in "$HOME/x") is dropped. */
  lemma ExpandBound(name: string, suffix: string, env: map<string, string>, vars: seq<(string, string)>)
    requires 0 < |name| <= ARGLEN - 1 && forall c <- name :: IsNameChar(c)
    requires suffix == [] || |name| == ARGLEN - 1 || !IsNameChar(suffix[0])
    ensures var t := ['$'] + name + suffix;
      ExpandToken(t, env, vars) ==
        if name in env then env[name]
        else if Lookup(vars, name).Some? then Lookup(vars, name).value
        else t
  {
    var t := ['$'] + name + suffix;
    assert t[1..] == name + suffix;
    LeadingNameOf(name, suffix);
  }

  /** A token that does not start with '$', or a lone '$', or a '$' not
      followed by a name character, is kept verbatim. Operators are never
      expanded. */
  lemma ExpandVerbatim(t: string, env: map<string, string>, vars: seq<(string, string)>)
    requires |t| <= 1 || t[0] != '$' || !IsNameChar(t[1])
    ensures ExpandToken(t, env, vars) == t
  {
    if |t| > 1 && t[0] == '$' {
      NameEndShape(t[1..], 0);
      assert NameEnd(t[1..], 0) == 0;
    }
  }

  /** Names longer than ARGLEN - 1 are cut: only the first ARGLEN - 1
      characters are looked up. */
  lemma ExpandLongName(name: string, more: string, env: map<string, string>, vars: seq<(string, string)>)
    requires |name| == ARGLEN - 1 && forall c <- name :: IsNameChar(c)
    requires name in env
    ensures ExpandToken(['$'] + name + more, env, vars) == env[name]
  {
    ExpandBound(name, more, env, vars);
  }
}
