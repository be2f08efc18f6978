/** Shell variables of src/execute.c: recognising an assignment token
    (is_variable_assignment) and the fixed-capacity store that
    handle_variables updates in place (var_names, var_values, var_count).
    MAX_VARS has no definition in include/shell.h, so the capacity is a
    positive parameter of the store. */
module Variables {
  import opened ShellBase
  import opened ArgList

  /** strchr as a scan over the characters. */
  method FindChar(s: string, c: char) returns (k: nat)
    ensures k == IndexOfChar(s, c)
  {
    k := 0;
    while k < |s| && s[k] != c
      invariant k <= |s| && forall j :: 0 <= j < k ==> s[j] != c
    {
      k := k + 1;
    }
    IndexOfCharIs(s, c, k);
  }

  // ---------------------------------------------------------------------
  // is_variable_assignment (source lines 18-47)

  /** A token NAME=... : its first '=' is not the first character, everything
      before it is a letter, digit or '_', and the first character is not a
      digit. */
  predicate IsAssignmentToken(t: string)
    ensures IsAssignmentToken(t) ==> Assignment(t).Some? && Assignment(t).value.0 != []
  {
    '=' in t && t[0] != '=' &&
    (forall j :: 0 <= j < |t| && j < IndexOfChar(t, '=') ==> IsNameChar(t[j])) &&
    !IsDigit(t[0])
  }

  /** is_variable_assignment: the list's first token is an assignment. */
  method IsVariableAssignment(a: array<Option<string>>) returns (r: bool)
    requires a.Length > 0
    ensures r <==> a[0] != None && IsAssignmentToken(a[0].value)
  {
    if a[0] == None {
      return false;
    }
    var cmd := a[0].value;
    var eq := FindChar(cmd, '=');
    if eq == |cmd| || eq == 0 {
      return false;
    }
    var i := 0;
    while i < eq
      invariant i <= eq && forall j :: 0 <= j < i ==> IsNameChar(cmd[j])
    {
      if !IsNameChar(cmd[i]) {
        return false;
      }
      i := i + 1;
    }
    if IsDigit(cmd[0]) {
      return false;
    }
    return true;
  }

  /** The three ways a token fails to be an assignment, and the way it
      succeeds, spelled out on the token's parts. */
  lemma AssignmentTokenShape(name: string, rest: string)
    requires '=' !in name
    ensures IsAssignmentToken(name + ['='] + rest) <==>
      name != [] && (forall c <- name :: IsNameChar(c)) && !IsDigit(name[0])
  {
    var t := name + ['='] + rest;
    IndexOfCharIs(t, '=', |name|);
    assert forall j :: 0 <= j < |name| ==> t[j] == name[j];
    if name != [] { assert t[0] == name[0]; }
  }

  // ---------------------------------------------------------------------
  // handle_variables (source lines 50-96)

  /** The stored value: surrounding double quotes removed when the value has
      more than one character and starts and ends with '"'. */
  function StripQuotes(v: string): (r: string)
    ensures r == v || (|v| > 1 && v == ['"'] + r + ['"'])
  {
    if |v| > 1 && v[0] == '"' && v[|v| - 1] == '"' then v[1..|v| - 1] else v
  }

  /** Quoting a value and storing it gives back the value. */
  lemma StripQuotesInverse(s: string)
    ensures StripQuotes(['"'] + s + ['"']) == s
  {
    assert (['"'] + s + ['"'])[1..|s| + 1] == s;
  }

  /** The name and the value an assignment token stores, or None when the
      token has no '='. */
  function Assignment(t: string): (r: Option<(string, string)>)
    ensures r == None <==> '=' !in t
    ensures r != None ==> r.value.0 + ['='] <= t && '=' !in r.value.0
  {
    var k := IndexOfChar(t, '=');
    if k == |t| then None else Some((t[..k], StripQuotes(t[k + 1..])))
  }

  /** Position of the first binding for name, or |vars| when there is none. */
  function IndexOfName(vars: seq<(string, string)>, name: string): (i: nat)
    ensures i <= |vars|
    ensures forall j :: 0 <= j < i ==> vars[j].0 != name
    ensures i < |vars| ==> vars[i].0 == name
  {
    if vars == [] || vars[0].0 == name then 0 else 1 + IndexOfName(vars[1..], name)
  }

  /** The value of the first binding for name. */
  function Lookup(vars: seq<(string, string)>, name: string): (r: Option<string>)
    ensures r.Some? <==> exists j :: 0 <= j < |vars| && vars[j].0 == name
    ensures r.Some? ==> (name, r.value) in vars
  {
    var i := IndexOfName(vars, name);
    if i < |vars| then Some(vars[i].1) else None
  }

  /** No name is bound twice. */
  predicate DistinctNames(vars: seq<(string, string)>) {
    forall i, j :: 0 <= i < j < |vars| ==> vars[i].0 != vars[j].0
  }

  /** The bindings after storing name = value in a table of capacity cap:
      an existing binding is overwritten where it stands, a new one is
      appended when there is room, and a full table is left as it is. */
  function Bind(vars: seq<(string, string)>, name: string, value: string, cap: nat): (r: seq<(string, string)>)
    ensures |vars| <= |r| <= |vars| + 1 && (|vars| <= cap ==> |r| <= cap)
  {
    var i := IndexOfName(vars, name);
    if i < |vars| then vars[i := (name, value)]
    else if |vars| < cap then vars + [(name, value)]
    else vars
  }

  /** After storing, looking the name up gives the stored value, unless the
      name was new and the table was full, in which case it stays unbound. */
  lemma BindThenLookup(vars: seq<(string, string)>, name: string, value: string, cap: nat)
    ensures Lookup(Bind(vars, name, value, cap), name) ==
      if IndexOfName(vars, name) < |vars| || |vars| < cap then Some(value) else None
  {
    var i := IndexOfName(vars, name);
    var r := Bind(vars, name, value, cap);
    if i < |vars| {
      IndexOfNameIs(r, name, i);
    } else if |vars| < cap {
      IndexOfNameIs(r, name, |vars|);
    }
  }

  lemma {:induction false} IndexOfNameIs(vars: seq<(string, string)>, name: string, i: nat)
    requires i < |vars| && vars[i].0 == name
    requires forall j :: 0 <= j < i ==> vars[j].0 != name
    ensures IndexOfName(vars, name) == i
  {
    if i > 0 {
      IndexOfNameIs(vars[1..], name, i - 1);
    }
  }

  lemma {:induction false} IndexOfNameNone(vars: seq<(string, string)>, name: string)
    requires forall j :: 0 <= j < |vars| ==> vars[j].0 != name
    ensures IndexOfName(vars, name) == |vars|
  {
    if vars != [] {
      IndexOfNameNone(vars[1..], name);
    }
  }

  /** Storing one name changes no other name's value. */
  lemma BindOther(vars: seq<(string, string)>, name: string, value: string, cap: nat, other: string)
    requires other != name
    ensures Lookup(Bind(vars, name, value, cap), other) == Lookup(vars, other)
  {
    var i := IndexOfName(vars, name);
    var r := Bind(vars, name, value, cap);
    var k := IndexOfName(vars, other);
    if i < |vars| || |vars| < cap {
      assert forall j :: 0 <= j < |vars| && j != i ==> r[j] == vars[j];
      assert i < |r| && r[i].0 == name;
      if k < |vars| {
        IndexOfNameIs(r, other, k);
      } else {
        IndexOfNameNone(r, other);
      }
    }
  }

  /** Storing keeps names distinct, grows the table by at most one binding,
      never beyond its capacity, and leaves a full table without the name
      unchanged. */
  lemma BindKeepsTable(vars: seq<(string, string)>, name: string, value: string, cap: nat)
    requires DistinctNames(vars) && |vars| <= cap
    ensures var r := Bind(vars, name, value, cap);
      DistinctNames(r) && |r| <= cap &&
      |r| == (if IndexOfName(vars, name) == |vars| && |vars| < cap then |vars| + 1 else |vars|) &&
      (IndexOfName(vars, name) == |vars| && |vars| == cap ==> r == vars)
  {
  }

  /** Zip of the name and value columns. */
  function Zip(ns: seq<string>, vs: seq<string>): (r: seq<(string, string)>)
    requires |ns| == |vs|
    ensures |r| == |ns| && forall i :: 0 <= i < |r| ==> r[i] == (ns[i], vs[i])
  {
    seq(|ns|, i requires 0 <= i < |ns| => (ns[i], vs[i]))
  }

  /** The variable table: var_names and var_values with var_count entries in
      use, at most maxVars of them. */
  class VarStore {
    const maxVars: nat
    const names: array<string>
    const values: array<string>
    var count: nat

    predicate Valid()
      reads this, names, values
    {
      names.Length == maxVars && values.Length == maxVars && names != values &&
      count <= maxVars && DistinctNames(Bindings())
    }

    /** The bindings in table order. */
    function Bindings(): (r: seq<(string, string)>)
      reads this, names, values
      requires count <= names.Length && count <= values.Length
    {
      Zip(names[..count], values[..count])
    }

    constructor (cap: nat)
      requires cap > 0
      ensures Valid() && maxVars == cap && Bindings() == []
    {
      maxVars := cap;
      names := new string[cap](_ => "");
      values := new string[cap](_ => "");
      count := 0;
    }

    /** The search loops of handle_variables and expand_variables: the
      position of the first entry with this name, or var_count. */
    method Find(name: string) returns (i: nat)
      requires Valid()
      ensures i == IndexOfName(Bindings(), name)
    {
      i := 0;
      while i < count && names[i] != name
        invariant i <= count && forall j :: 0 <= j < i ==> names[j] != name
      {
        i := i + 1;
      }
      if i < count {
        IndexOfNameIs(Bindings(), name, i);
      } else {
        IndexOfNameNone(Bindings(), name);
      }
    }

    /** The lookup of expand_variables (source lines 132-137): the value of
      the first entry with this name. */
    method Get(name: string) returns (r: Option<string>)
      requires Valid()
      ensures r == Lookup(Bindings(), name)
    {
      var i := Find(name);
      if i < count {
        return Some(values[i]);
      }
      return None;
    }

    /** handle_variables: for a first token NAME=VALUE, cut the token down to
      NAME (the '=' is overwritten with the terminator), strip surrounding
      quotes from VALUE, then overwrite NAME's value where it stands or
      append a new entry when there is room. A token without '=' changes
      nothing. */
    method Assign(a: array<Option<string>>)
      requires Valid() && a.Length > 0
      modifies this, names, values, a
      ensures Valid()
      ensures old(a[0]) == None || Assignment(old(a[0]).value) == None ==>
        a[..] == old(a[..]) && Bindings() == old(Bindings())
      ensures old(a[0]) != None && Assignment(old(a[0]).value) != None ==>
        var (name, value) := Assignment(old(a[0]).value).value;
        a[..] == old(a[..])[0 := Some(name)] &&
        Bindings() == Bind(old(Bindings()), name, value, maxVars)
    {
      if a[0] == None {
        return;
      }
      var t := a[0].value;
      var eq := FindChar(t, '=');
      if eq == |t| {
        return;
      }
      var name := t[..eq];
      a[0] := Some(name);
      Store(name, StripQuotes(t[eq + 1..]));
    }

    /** The table update of handle_variables: overwrite the value of the
      first entry with this name, or append a new entry when there is room. */
    method Store(name: string, value: string)
      requires Valid()
      modifies this, values, names
      ensures Valid() && Bindings() == Bind(old(Bindings()), name, value, maxVars)
    {
      ghost var vars := Bindings();
      BindKeepsTable(vars, name, value, maxVars);
      var i := Find(name);
      if i < count {
        values[i] := value;
        assert Bindings() == vars[i := (name, value)];
      } else if count < maxVars {
        names[count] := name;
        values[count] := value;
        count := count + 1;
        assert Bindings() == vars + [(name, value)];
      }
    }
  }
}
