/** The splitting half of handle_chain_commands (src/shell.c): a line with a ';'
    is cut at every ';', each piece is trimmed of spaces and tabs, empty pieces
    are dropped, and at most MAXARGS commands are kept, in their original order. */
module Chaining {
  import opened ShellBase

  // ---------------------------------------------------------------------
  // Fields between semicolons

  /** Position of the first ';' at or after p, or the end of the line. */
  function SemiAt(line: string, p: nat): (e: nat)
    requires p <= |line|
    ensures p <= e <= |line|
    decreases |line| - p
  {
    if p == |line| || line[p] == ';' then p else SemiAt(line, p + 1)
  }

  /** The ';'-separated fields of line from position p on, empty ones included. */
  function Fields(line: string, p: nat): (r: seq<string>)
    requires p <= |line|
    ensures |r| > 0
    decreases |line| - p
  {
    var e := SemiAt(line, p);
    if e == |line| then [line[p..]] else [line[p..e]] + Fields(line, e + 1)
  }

  /** The fields joined back together with ';' between them. */
  function JoinFields(fs: seq<string>): string
  {
    if fs == [] then [] else if |fs| == 1 then fs[0] else fs[0] + [';'] + JoinFields(fs[1..])
  }

  /** SemiAt stops at the first ';', or at the end when there is none. */
  lemma {:induction false} SemiAtShape(line: string, p: nat)
    requires p <= |line|
    ensures var e := SemiAt(line, p);
      (forall k :: p <= k < e ==> line[k] != ';') && (e < |line| ==> line[e] == ';')
    decreases |line| - p
  {
    if p < |line| && line[p] != ';' {
      SemiAtShape(line, p + 1);
    }
  }

  /** Fields are free of ';', and joining them back gives the original text. */
  lemma {:induction false} FieldsJoin(line: string, p: nat)
    requires p <= |line|
    ensures JoinFields(Fields(line, p)) == line[p..]
    ensures forall f <- Fields(line, p) :: ';' !in f
    decreases |line| - p
  {
    var e := SemiAt(line, p);
    SemiAtShape(line, p);
    assert forall k :: 0 <= k < e - p ==> line[p..e][k] == line[p + k];
    if e < |line| {
      FieldsJoin(line, e + 1);
      assert line[p..] == line[p..e] + [';'] + line[e + 1..];
    }
  }

  /** Text in front of the position searched from does not matter. */
  lemma {:induction false} SemiAtShift(pre: string, s: string, i: nat)
    requires i <= |s|
    ensures SemiAt(pre + s, |pre| + i) == |pre| + SemiAt(s, i)
    decreases |s| - i
  {
    if i < |s| {
      assert (pre + s)[|pre| + i] == s[i];
      if s[i] != ';' {
        SemiAtShift(pre, s, i + 1);
      }
    }
  }

  lemma {:induction false} FieldsShift(pre: string, s: string, i: nat)
    requires i <= |s|
    ensures Fields(pre + s, |pre| + i) == Fields(s, i)
    decreases |s| - i
  {
    var e := SemiAt(s, i);
    SemiAtShift(pre, s, i);
    assert (pre + s)[|pre| + i..|pre| + e] == s[i..e];
    assert (pre + s)[|pre| + i..] == s[i..];
    if e < |s| {
      FieldsShift(pre, s, e + 1);
    }
  }

  /** A field followed by ';' and more text is split off on its own. */
  lemma FieldsCons(x: string, rest: string)
    requires ';' !in x
    ensures Fields(x + [';'] + rest, 0) == [x] + Fields(rest, 0)
  {
    var line := x + [';'] + rest;
    SemiAtShape(line, 0);
    assert SemiAt(line, 0) == |x| by {
      assert line[|x|] == ';';
      assert forall k :: 0 <= k < |x| ==> line[k] == x[k];
    }
    assert line[0..|x|] == x;
    assert line == (x + [';']) + rest;
    FieldsShift(x + [';'], rest, 0);
  }

  // ---------------------------------------------------------------------
  // Trimming

  /** End of s[lo..hi] once trailing blanks are dropped; as in the source, the
      character at lo itself is never examined. */
  function TrailEnd(s: string, lo: nat, hi: nat): (j: nat)
    requires lo <= hi <= |s|
    ensures lo <= j <= hi
    decreases hi
  {
    if hi > lo + 1 && IsBlank(s[hi - 1]) then TrailEnd(s, lo, hi - 1) else hi
  }

  /** s without its leading and trailing spaces and tabs. */
  function Trim(s: string): (r: string)
    ensures |r| <= |s|
  {
    var lo := SkipBlanks(s, 0);
    s[lo..TrailEnd(s, lo, |s|)]
  }

  lemma {:induction false} TrailEndShape(s: string, lo: nat, hi: nat)
    requires lo <= hi <= |s|
    ensures var j := TrailEnd(s, lo, hi);
      (forall k :: j <= k < hi ==> IsBlank(s[k])) && (j > lo + 1 ==> !IsBlank(s[j - 1]))
    decreases hi
  {
    if hi > lo + 1 && IsBlank(s[hi - 1]) {
      TrailEndShape(s, lo, hi - 1);
    }
  }

  /** Trim(s) is what lies between the leading blanks of s and its trailing
      ones: everything before it and after it is blank, and it is empty or
      starts and ends with a character that is not a blank. */
  lemma TrimShape(s: string)
    ensures var lo := SkipBlanks(s, 0); var hi := lo + |Trim(s)|;
      hi <= |s| && Trim(s) == s[lo..hi] &&
      (forall k :: 0 <= k < lo ==> IsBlank(s[k])) &&
      (forall k :: hi <= k < |s| ==> IsBlank(s[k]))
    ensures var r := Trim(s); r == [] || (!IsBlank(r[0]) && !IsBlank(r[|r| - 1]))
  {
    var lo := SkipBlanks(s, 0);
    var hi := TrailEnd(s, lo, |s|);
    TrailEndShape(s, lo, |s|);
    if lo < hi {
      assert Trim(s)[0] == s[lo];
      assert Trim(s)[hi - lo - 1] == s[hi - 1];
    }
  }

  /** The trimming loops of handle_chain_commands (source lines 108-113): the
      start moves past leading blanks, then the end moves back over trailing
      ones while it is past the start. */
  method TrimBlanks(s: string) returns (lo: nat, hi: nat)
    ensures lo <= hi <= |s| && s[lo..hi] == Trim(s)
  {
    lo := 0;
    while lo < |s| && IsBlank(s[lo])
      invariant lo <= |s| && SkipBlanks(s, lo) == SkipBlanks(s, 0)
    {
      lo := lo + 1;
    }
    hi := |s|;
    while hi > lo + 1 && IsBlank(s[hi - 1])
      invariant lo <= hi <= |s| && TrailEnd(s, lo, hi) == TrailEnd(s, lo, |s|)
    {
      hi := hi - 1;
    }
  }

  // ---------------------------------------------------------------------
  // Collecting the commands

  /** The field trimmed to f[lo..hi] contributes that text, unless it is empty. */
  lemma KeptIs(f: string, lo: nat, hi: nat)
    requires lo <= hi <= |f| && f[lo..hi] == Trim(f)
    ensures Kept(f) == if lo < hi then [f[lo..hi]] else []
  {
  }

  /** What one field contributes: its trimmed text, unless that is empty. */
  function Kept(f: string): (r: seq<string>)
    ensures |r| <= 1
  {
    if |Trim(f)| == 0 then [] else [Trim(f)]
  }

  /** The trimmed fields that are not empty, in order. */
  function NonBlank(fs: seq<string>): (r: seq<string>)
    ensures |r| <= |fs|
  {
    if fs == [] then [] else Kept(fs[0]) + NonBlank(fs[1..])
  }

  /** The commands handle_chain_commands collects from a line with a ';'. */
  function Commands(line: string): (r: seq<string>)
    ensures |r| <= MAXARGS
  {
    Take(NonBlank(Fields(line, 0)), MAXARGS)
  }

  lemma NonBlankCons(f: string, fs: seq<string>)
    ensures NonBlank([f] + fs) == Kept(f) + NonBlank(fs)
  {
    assert ([f] + fs)[1..] == fs;
  }

  /** What the collecting loop ends with when it is at position p holding
      acc: the first MAXARGS of acc followed by the rest of the line's
      non-empty trimmed fields. */
  function Pending(line: string, p: nat, acc: seq<string>): seq<string>
    requires p <= |line|
  {
    Take(acc + NonBlank(Fields(line, p)), MAXARGS)
  }

  lemma TakeFull<T>(acc: seq<T>, more: seq<T>)
    requires |acc| == MAXARGS
    ensures Take(acc + more, MAXARGS) == acc
  {
    assert (acc + more)[..MAXARGS] == acc;
  }

  /** Taking the field up to the next ';' and moving past that ';' leaves
      what the loop ends with unchanged. */
  lemma PendingStep(line: string, p: nat, acc: seq<string>, acc': seq<string>)
    requires p <= |line| && SemiAt(line, p) < |line|
    requires |acc| < MAXARGS && acc' == acc + Kept(line[p..SemiAt(line, p)])
    ensures |acc'| <= MAXARGS
    ensures Pending(line, SemiAt(line, p) + 1, acc') == Pending(line, p, acc)
  {
    var e := SemiAt(line, p);
    NonBlankFields(line, p);
    TakeRegroup(Pending(line, e + 1, acc'), Take(acc + Kept(line[p..e]) + NonBlank(Fields(line, e + 1)), MAXARGS),
      acc, Kept(line[p..e]), NonBlank(Fields(line, e + 1)), NonBlank(Fields(line, p)), MAXARGS);
  }

  /** The non-empty trimmed fields: the first field's, then the rest's. */
  lemma NonBlankFields(line: string, p: nat)
    requires p <= |line| && SemiAt(line, p) < |line|
    ensures var e := SemiAt(line, p);
      NonBlank(Fields(line, p)) == Kept(line[p..e]) + NonBlank(Fields(line, e + 1))
  {
    var e := SemiAt(line, p);
    assert Fields(line, p) == [line[p..e]] + Fields(line, e + 1);
    NonBlankCons(line[p..e], Fields(line, e + 1));
  }

  /** The last field, which runs to the end of the line, completes the list. */
  lemma PendingLast(line: string, p: nat, acc: seq<string>, acc': seq<string>)
    requires p <= |line| && |acc| < MAXARGS && SemiAt(line, p) == |line|
    requires acc' == acc + Kept(line[p..SemiAt(line, p)])
    ensures |acc'| <= MAXARGS
    ensures Pending(line, |line|, acc') == Pending(line, p, acc)
  {
    assert line[p..SemiAt(line, p)] == line[p..];
    assert Fields(line, p) == [line[p..]] + [];
    NonBlankCons(line[p..], []);
    assert NonBlank(Fields(line, p)) == Kept(line[p..]);
    PendingEnd(line, acc');
  }

  /** What strtok_r finds from position p: the next ';', or the end. */
  method NextSemicolon(line: string, p: nat) returns (e: nat)
    requires p <= |line|
    ensures e == SemiAt(line, p)
  {
    e := p;
    while e < |line| && line[e] != ';'
      invariant p <= e <= |line| && SemiAt(line, e) == SemiAt(line, p)
    {
      e := e + 1;
    }
  }

  /** Past the end of the line nothing is pending: the loop ends with what
      it holds. */
  lemma PendingEnd(line: string, acc: seq<string>)
    requires |acc| <= MAXARGS
    ensures Pending(line, |line|, acc) == acc
  {
    assert line[|line|..] == [];
    assert Fields(line, |line|) == [[]] + [];
    NonBlankCons([], []);
    assert Kept([]) == [];
    assert acc + NonBlank(Fields(line, |line|)) == acc;
  }

  /** One pass of the collecting loop: find the end of the current field,
      trim it, keep it when something is left, and move past the ';' (or to
      the end of the line). What the loop ends with does not change. */
  method CollectOne(line: string, p: nat, acc: seq<string>) returns (next: nat, acc': seq<string>)
    requires p < |line| && |acc| < MAXARGS
    ensures p < next <= |line| && |acc'| <= MAXARGS
    ensures Pending(line, next, acc') == Pending(line, p, acc)
  {
    var e := NextSemicolon(line, p);
    var lo, hi := TrimBlanks(line[p..e]);
    KeptIs(line[p..e], lo, hi);
    acc' := acc;
    if lo < hi {
      acc' := acc + [line[p..e][lo..hi]];
    }
    if e < |line| {
      PendingStep(line, p, acc, acc');
      next := e + 1;
    } else {
      PendingLast(line, p, acc, acc');
      next := e;
    }
  }

  /** The collecting loop of handle_chain_commands (source lines 104-118):
      it gathers exactly the first MAXARGS non-empty trimmed fields. */
  method Collect(line: string) returns (commands: seq<string>)
    ensures commands == Commands(line)
  {
    ghost var goal := Commands(line);
    commands := [];
    var p := 0;
    assert [] + NonBlank(Fields(line, 0)) == NonBlank(Fields(line, 0));
    while p < |line| && |commands| < MAXARGS
      invariant p <= |line| && |commands| <= MAXARGS
      invariant Pending(line, p, commands) == goal
      decreases |line| - p
    {
      p, commands := CollectOne(line, p, commands);
    }
    if |commands| == MAXARGS {
      TakeFull(commands, NonBlank(Fields(line, p)));
    } else {
      PendingEnd(line, commands);
    }
  }

  /** handle_chain_commands, splitting half: 0 and nothing for a line without
      ';'; otherwise 1 and the trimmed non-empty pieces between the ';'s, at
      most MAXARGS of them. */
  method ChainCommands(line: string) returns (handled: int, commands: seq<string>)
    ensures handled == (if ';' in line then 1 else 0)
    ensures commands == (if ';' in line then Commands(line) else [])
  {
    if ';' !in line {
      return 0, [];
    }
    handled := 1;
    commands := Collect(line);
  }

  // ---------------------------------------------------------------------
  // Properties of the split

  /** A command is non-empty, has no blank at either end and no ';'. */
  predicate WellFormed(c: string) {
    c != [] && ';' !in c && !IsBlank(c[0]) && !IsBlank(c[|c| - 1])
  }

  lemma KeptShape(f: string)
    requires ';' !in f
    ensures forall c <- Kept(f) :: WellFormed(c)
  {
    TrimShape(f);
    var t := Trim(f);
    var lo := SkipBlanks(f, 0);
    assert forall k :: 0 <= k < |t| ==> t[k] == f[lo + k];
  }

  lemma {:induction false} NonBlankShape(fs: seq<string>)
    requires forall f <- fs :: ';' !in f
    ensures forall c <- NonBlank(fs) :: WellFormed(c)
  {
    if fs != [] {
      NonBlankShape(fs[1..]);
      KeptShape(fs[0]);
    }
  }

  /** Every command collected is non-empty, has no blank at either end and
      contains no ';'; there are at most MAXARGS of them. */
  lemma CommandsShape(line: string)
    ensures |Commands(line)| <= MAXARGS
    ensures forall c <- Commands(line) :: WellFormed(c)
  {
    FieldsJoin(line, 0);
    NonBlankShape(Fields(line, 0));
  }

  /** An empty field contributes nothing. */
  lemma EmptyFieldDropped(x: string, fs: seq<string>)
    ensures NonBlank([x] + ([[]] + fs)) == NonBlank([x] + fs)
  {
    var g: seq<string> := [[]] + fs;
    NonBlankCons([], fs);
    assert Kept([]) == [];
    assert NonBlank(g) == NonBlank(fs);
    NonBlankCons(x, g);
    NonBlankCons(x, fs);
  }

  /** An empty piece between two ';'s yields no command: doubling a ';'
      anywhere in the line does not change the commands. */
  lemma DoubledSemicolon(x: string, y: string)
    ensures Commands(x + [';', ';'] + y) == Commands(x + [';'] + y)
  {
    DoubledFields(x, y);
  }

  /** The non-empty pieces are the same with a doubled ';' and a single one,
      by induction on the pieces before it. */
  lemma {:induction false} DoubledFields(x: string, y: string)
    ensures NonBlank(Fields(x + [';', ';'] + y, 0)) == NonBlank(Fields(x + [';'] + y, 0))
    decreases |x|
  {
    var k := IndexOfChar(x, ';');
    if k == |x| {
      var fs := Fields(y, 0);
      assert x + [';', ';'] + y == x + [';'] + ([';'] + y);
      FieldsCons(x, [';'] + y);
      FieldsCons([], y);
      assert [] + [';'] + y == [';'] + y;
      FieldsCons(x, y);
      EmptyFieldDropped(x, fs);
    } else {
      var x1, x2 := x[..k], x[k + 1..];
      assert x == x1 + [';'] + x2;
      assert x + [';', ';'] + y == x1 + [';'] + (x2 + [';', ';'] + y);
      assert x + [';'] + y == x1 + [';'] + (x2 + [';'] + y);
      FieldsCons(x1, x2 + [';', ';'] + y);
      FieldsCons(x1, x2 + [';'] + y);
      NonBlankCons(x1, Fields(x2 + [';', ';'] + y, 0));
      NonBlankCons(x1, Fields(x2 + [';'] + y, 0));
      DoubledFields(x2, y);
    }
  }

  /** Pieces are kept in their order of appearance: a first piece that is not
      blank comes first, trimmed. */
  lemma FirstCommand(x: string, rest: string)
    requires ';' !in x && Trim(x) != []
    ensures Commands(x + [';'] + rest) == Take([Trim(x)] + NonBlank(Fields(rest, 0)), MAXARGS)
  {
    FieldsCons(x, rest);
    NonBlankCons(x, Fields(rest, 0));
  }
}
