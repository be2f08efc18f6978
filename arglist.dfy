/** The argument-list transformers of src/execute.c. An argument list is a
    NULL-terminated array of strings; it is modelled as an array of Option,
    None standing for NULL, and its tokens are the strings before the first
    None. Every transformer works in place on that array. */
module ArgList {
  import opened ShellBase

  /** The tokens of a NULL-terminated list: the strings before the first None. */
  function Args(s: seq<Option<string>>): (r: seq<string>)
    ensures |r| <= |s|
    ensures forall i :: 0 <= i < |r| ==> s[i] == Some(r[i])
    ensures |r| < |s| ==> s[|r|] == None
  {
    if s == [] || s[0].None? then [] else [s[0].value] + Args(s[1..])
  }

  /** A list whose first None sits right after the strings r has exactly the
      tokens r. */
  lemma {:induction false} ArgsIs(s: seq<Option<string>>, r: seq<string>)
    requires |r| < |s| && s[|r|] == None
    requires forall i :: 0 <= i < |r| ==> s[i] == Some(r[i])
    ensures Args(s) == r
  {
    if r != [] {
      assert s[0] == Some(r[0]);
      ArgsIs(s[1..], r[1..]);
    }
  }

  /** The tokens from slot j on are the tokens of the list from j on. */
  lemma ArgsSuffix(s: seq<Option<string>>, j: nat)
    requires |Args(s)| < |s| && j <= |Args(s)|
    ensures Args(s[j..]) == Args(s)[j..]
  {
    ArgsIs(s[j..], Args(s)[j..]);
  }

  /** Setting slot k (at or before the first None) to None cuts the tokens at k. */
  lemma ArgsCut(s: seq<Option<string>>, k: nat)
    requires |Args(s)| < |s| && k <= |Args(s)|
    ensures Args(s[k := None]) == Args(s)[..k]
  {
    ArgsIs(s[k := None], Args(s)[..k]);
  }

  // ---------------------------------------------------------------------
  // handle_background (source lines 224-238)

  /** The list ends with a "&" token. */
  predicate IsBackground(args: seq<string>) {
    args != [] && args[|args| - 1] == "&"
  }

  /** The tokens handle_background leaves: all but a trailing "&". */
  function Foreground(args: seq<string>): (r: seq<string>)
    ensures r <= args
    ensures |args| - |r| == (if IsBackground(args) then 1 else 0)
  {
    if IsBackground(args) then args[..|args| - 1] else args
  }

  /** Appending "&" to a command makes it a background command whose
      foreground part is the command itself. */
  lemma BackgroundInverse(cmd: seq<string>)
    ensures IsBackground(cmd + ["&"]) && Foreground(cmd + ["&"]) == cmd
  {
    assert (cmd + ["&"])[..|cmd|] == cmd;
  }

  /** Only one trailing "&" is taken off: "x & &" keeps its first "&". */
  lemma BackgroundStripsOne(cmd: seq<string>)
    ensures Foreground(cmd + ["&", "&"]) == cmd + ["&"]
  {
    assert cmd + ["&", "&"] == (cmd + ["&"]) + ["&"];
    BackgroundInverse(cmd + ["&"]);
  }

  /** handle_background: find the last token; when it is "&", replace it by
      NULL and report 1, otherwise report 0 and change nothing. The source
      reads the first slot unconditionally, so the list must not be empty. */
  method HandleBackground(a: array<Option<string>>) returns (background: int)
    requires |Args(a[..])| < a.Length && a[0] != None
    modifies a
    ensures var args := Args(old(a[..]));
      background == (if IsBackground(args) then 1 else 0) &&
      a[..] == (if IsBackground(args) then old(a[..])[|args| - 1 := None] else old(a[..])) &&
      Args(a[..]) == Foreground(args)
  {
    ghost var s := a[..];
    ghost var args := Args(s);
    var last := 0;
    var i := 0;
    while a[i] != None
      invariant i <= |args| && last == (if i == 0 then 0 else i - 1)
      decreases |args| - i
    {
      last := i;
      i := i + 1;
    }
    assert i == |args|;
    if a[last] == Some("&") {
      background := 1;
      a[last] := None;
      ArgsCut(s, last);
    } else {
      background := 0;
    }
  }

  // ---------------------------------------------------------------------
  // parse_redirection (source lines 240-257)

  predicate IsRedirect(t: string) {
    t == "<" || t == ">"
  }

  /** Index of the first "<" or ">" token, or the length when there is none. */
  function RedirectAt(args: seq<string>): (k: nat)
    ensures k <= |args|
    ensures forall j :: 0 <= j < k ==> !IsRedirect(args[j])
    ensures k < |args| ==> IsRedirect(args[k])
  {
    if args == [] || IsRedirect(args[0]) then 0 else 1 + RedirectAt(args[1..])
  }

  /** What parse_redirection yields: the input and output files and the
      tokens that are left. */
  datatype Redirection = Redirection(input: Option<string>, output: Option<string>, args: seq<string>)

  /** The first "<" or ">" names the token after it (or nothing) as the file,
      and the list ends where the operator stood. */
  function ParseRedirect(args: seq<string>): (r: Redirection)
    ensures r.args <= args && |r.args| == RedirectAt(args)
    ensures r.input == None || r.output == None
  {
    var k := RedirectAt(args);
    if k == |args| then Redirection(None, None, args)
    else
      var file := if k + 1 < |args| then Some(args[k + 1]) else None;
      if args[k] == "<" then Redirection(file, None, args[..k])
      else Redirection(None, file, args[..k])
  }

  /** The remaining tokens are a prefix free of redirection operators, and at
      most one file is set. */
  lemma RedirectClean(args: seq<string>)
    ensures var r := ParseRedirect(args);
      r.args <= args && (forall t <- r.args :: !IsRedirect(t)) &&
      (r.input == None || r.output == None)
  {
    var k := RedirectAt(args);
    assert forall j :: 0 <= j < k ==> args[..k][j] == args[j];
  }

  /** A list without "<" and ">" is left alone, and only such a list is. */
  lemma RedirectNoneIff(args: seq<string>)
    ensures ParseRedirect(args) == Redirection(None, None, args) <==> forall t <- args :: !IsRedirect(t)
  {
    var k := RedirectAt(args);
    if k < |args| {
      assert IsRedirect(args[k]);
      assert |ParseRedirect(args).args| == k;
    } else {
      assert forall j :: 0 <= j < |args| ==> !IsRedirect(args[j]);
    }
  }

  /** Only the first operator counts: "cmd < file rest" reads from file and
      runs cmd, whatever rest holds (further operators included). */
  lemma RedirectFirstOnly(cmd: seq<string>, op: string, file: string, rest: seq<string>)
    requires IsRedirect(op) && forall t <- cmd :: !IsRedirect(t)
    ensures ParseRedirect(cmd + [op, file] + rest) ==
      if op == "<" then Redirection(Some(file), None, cmd) else Redirection(None, Some(file), cmd)
  {
    var args := cmd + [op, file] + rest;
    RedirectAtIs(args, |cmd|);
    assert args[..|cmd|] == cmd;
  }

  /** An operator with nothing after it sets no file but still cuts the list. */
  lemma RedirectDangling(cmd: seq<string>, op: string)
    requires IsRedirect(op) && forall t <- cmd :: !IsRedirect(t)
    ensures ParseRedirect(cmd + [op]) == Redirection(None, None, cmd)
  {
    var args := cmd + [op];
    RedirectAtIs(args, |cmd|);
    assert args[..|cmd|] == cmd;
  }

  lemma {:induction false} RedirectAtIs(args: seq<string>, k: nat)
    requires k < |args| && IsRedirect(args[k])
    requires forall j :: 0 <= j < k ==> !IsRedirect(args[j])
    ensures RedirectAt(args) == k
  {
    if k > 0 {
      RedirectAtIs(args[1..], k - 1);
    }
  }

  /** The body of parse_redirection's loop at an operator in slot i: the
      file is the next slot, and both slots become NULL. */
  method CutAt(a: array<Option<string>>, i: nat) returns (file: Option<string>)
    requires i + 1 < a.Length
    modifies a
    ensures file == old(a[i + 1]) && a[..] == old(a[..])[i := None][i + 1 := None]
  {
    file := a[i + 1];
    a[i] := None;
    if a[i + 1] != None {
      a[i + 1] := None;
    }
  }

  /** parse_redirection: scan the tokens; at the first "<" or ">" take the
      next slot as the file, set the operator's slot and the next one to NULL,
      which ends the scan. */
  method ParseRedirection(a: array<Option<string>>) returns (inputFile: Option<string>, outputFile: Option<string>)
    requires |Args(a[..])| < a.Length
    modifies a
    ensures var args := Args(old(a[..])); var k := RedirectAt(args);
      a[..] == (if k == |args| then old(a[..]) else old(a[..])[k := None][k + 1 := None])
    ensures var r := ParseRedirect(Args(old(a[..])));
      inputFile == r.input && outputFile == r.output && Args(a[..]) == r.args
  {
    ghost var s := a[..];
    ghost var args := Args(s);
    ghost var k := RedirectAt(args);
    inputFile, outputFile := None, None;
    var i := 0;
    while a[i] != None
      invariant i <= k ==> i <= |args| && a[..] == s && inputFile == None && outputFile == None
      invariant k < i ==> i == k + 1 && k < |args| && a[..] == s[k := None][k + 1 := None]
      invariant k < i ==> var r := ParseRedirect(args); inputFile == r.input && outputFile == r.output
      decreases a.Length - i
    {
      if a[i] == Some("<") {
        inputFile := CutAt(a, i);
      } else if a[i] == Some(">") {
        outputFile := CutAt(a, i);
      }
      i := i + 1;
    }
    if k < |args| {
      ArgsIs(s[k := None][k + 1 := None], args[..k]);
    }
  }

  // ---------------------------------------------------------------------
  // The splitting half of handle_pipe (source lines 296-317)

  /** Index of the first "|" token, or the length when there is none. */
  function PipeAt(args: seq<string>): (k: nat)
    ensures k <= |args|
    ensures forall j :: 0 <= j < k ==> args[j] != "|"
    ensures k < |args| ==> args[k] == "|"
  {
    if args == [] || args[0] == "|" then 0 else 1 + PipeAt(args[1..])
  }

  /** A list without "|", or the commands before and after its first "|". */
  datatype PipeSplit = NoPipe | Split(left: seq<string>, right: seq<string>)

  function SplitAtPipe(args: seq<string>): (r: PipeSplit)
    ensures r.Split? ==> r.left <= args && |r.left| + 1 + |r.right| == |args|
  {
    var k := PipeAt(args);
    if k == |args| then NoPipe else Split(args[..k], args[k + 1..])
  }

  /** The split loses nothing: the left part, "|" and the right part make up
      the list again, and the left part holds no "|". */
  lemma SplitJoin(args: seq<string>)
    ensures SplitAtPipe(args).NoPipe? <==> "|" !in args
    ensures SplitAtPipe(args).Split? ==>
      var r := SplitAtPipe(args); r.left + ["|"] + r.right == args && "|" !in r.left
  {
    var k := PipeAt(args);
    if k < |args| {
      assert args[..k] + ["|"] + args[k + 1..] == args;
      assert forall j :: 0 <= j < k ==> args[..k][j] == args[j];
    } else {
      assert forall j :: 0 <= j < |args| ==> args[j] != "|";
    }
  }

  /** Conversely, a command without "|", a "|" and anything after split back
      into those two commands. */
  lemma SplitOf(left: seq<string>, right: seq<string>)
    requires "|" !in left
    ensures SplitAtPipe(left + ["|"] + right) == Split(left, right)
  {
    var args := left + ["|"] + right;
    PipeAtIs(args, |left|);
    assert args[..|left|] == left;
    assert args[|left| + 1..] == right;
  }

  lemma {:induction false} PipeAtIs(args: seq<string>, k: nat)
    requires k < |args| && args[k] == "|"
    requires forall j :: 0 <= j < k ==> args[j] != "|"
    ensures PipeAt(args) == k
  {
    if k > 0 {
      PipeAtIs(args[1..], k - 1);
    }
  }

  /** The search loop of handle_pipe: the slot of the first "|" token, or
      the slot of the NULL when there is none. */
  method FindPipe(a: array<Option<string>>) returns (i: nat)
    requires |Args(a[..])| < a.Length
    ensures i == PipeAt(Args(a[..]))
  {
    ghost var args := Args(a[..]);
    i := 0;
    while a[i] != None && a[i] != Some("|")
      invariant i <= |args| && forall j :: 0 <= j < i ==> args[j] != "|"
      decreases |args| - i
    {
      i := i + 1;
    }
    if a[i] == None {
      PipeAtIsNone(args);
    } else {
      PipeAtIs(args, i);
    }
  }

  /** The splitting half of handle_pipe: 0 and no change without a "|";
      otherwise the first "|" slot becomes NULL, so the list itself is the
      left command and the slots after pos hold the right one; -1 when the
      right command is empty, 1 when both halves are there to be run. */
  method SplitPipe(a: array<Option<string>>) returns (status: int, pos: int)
    requires |Args(a[..])| < a.Length
    modifies a
    ensures var args := Args(old(a[..]));
      (status == 0 <==> SplitAtPipe(args).NoPipe?) &&
      (status == 0 ==> a[..] == old(a[..]))
    ensures status != 0 ==>
      0 <= pos < |Args(old(a[..]))| && a[..] == old(a[..])[pos := None] &&
      SplitAtPipe(Args(old(a[..]))) == Split(Args(a[..]), Args(a[pos + 1..])) &&
      (status == -1 <==> Args(a[pos + 1..]) == []) && (status == -1 || status == 1)
  {
    ghost var s := a[..];
    var k := FindPipe(a);
    if a[k] == None {
      return 0, -1;
    }
    pos := k;
    a[pos] := None;
    ArgsCut(s, pos);
    ArgsSuffix(s, pos + 1);
    assert a[pos + 1..] == s[pos + 1..];
    if a[pos + 1] == None {
      status := -1;
    } else {
      status := 1;
    }
  }

  lemma PipeAtIsNone(args: seq<string>)
    requires forall j :: 0 <= j < |args| ==> args[j] != "|"
    ensures PipeAt(args) == |args|
  {
  }
}
