/** Constants of include/shell.h, the Option type used for C's NULL, and the
    character classes the scanner and the variable code test with. */
module ShellBase {

  /** Maximum number of tokens in one argument list (MAXARGS). */
  const MAXARGS := 64
  /** Size of each token buffer, terminator included (ARGLEN). */
  const ARGLEN := 64
  /** Size of the buffer a job's display string is built in (MAX_LEN). */
  const MAX_LEN := 1024
  /** Capacity of the command history (HISTORY_SIZE). */
  const HISTORY_SIZE := 20
  /** Capacity of the background-job table (MAX_JOBS). */
  const MAX_JOBS := 20

  /** A C pointer that may be NULL. */
  datatype Option<T> = None | Some(value: T)

  /** Space or tab: the only characters the scanner and the trimmer skip. */
  predicate IsBlank(c: char) {
    c == ' ' || c == '\t'
  }

  /** The characters that form single-character operator tokens. */
  predicate IsOperator(c: char) {
    c == '<' || c == '>' || c == '|' || c == '&' || c == ';'
  }

  /** isdigit in the C locale. */
  predicate IsDigit(c: char) {
    '0' <= c <= '9'
  }

  /** isalnum in the C locale. */
  predicate IsAlnum(c: char) {
    IsDigit(c) || 'a' <= c <= 'z' || 'A' <= c <= 'Z'
  }

  /** A character allowed in a variable name. */
  predicate IsNameChar(c: char) {
    IsAlnum(c) || c == '_'
  }

  /** Every character of s is a space or a tab. */
  predicate AllBlank(s: string) {
    forall k :: 0 <= k < |s| ==> IsBlank(s[k])
  }

  /** Position of the first character at or after i that is not a space or tab:
      where the tokenizer starts a token and the trimmer starts a command. */
  function SkipBlanks(line: string, i: nat): (j: nat)
    requires i <= |line|
    ensures i <= j <= |line|
    ensures forall k :: i <= k < j ==> IsBlank(line[k])
    ensures j < |line| ==> !IsBlank(line[j])
    decreases |line| - i
  {
    if i == |line| || !IsBlank(line[i]) then i else SkipBlanks(line, i + 1)
  }

  /** The first n elements of xs, or all of them when there are fewer. */
  function Take<T>(xs: seq<T>, n: nat): (r: seq<T>)
    ensures |r| <= n && r <= xs
    ensures |xs| <= n ==> r == xs
  {
    if |xs| <= n then xs else xs[..n]
  }

  /** Index of the first c in s, or |s| when there is none (strchr). */
  function IndexOfChar(s: string, c: char): (k: nat)
    ensures k <= |s|
    ensures forall j :: 0 <= j < k ==> s[j] != c
    ensures k < |s| ==> s[k] == c
  {
    if s == [] || s[0] == c then 0 else 1 + IndexOfChar(s[1..], c)
  }

  lemma {:induction false} IndexOfCharIs(s: string, c: char, k: nat)
    requires k <= |s| && (k < |s| ==> s[k] == c)
    requires forall j :: 0 <= j < k ==> s[j] != c
    ensures IndexOfChar(s, c) == k
  {
    if k > 0 {
      IndexOfCharIs(s[1..], c, k - 1);
    }
  }

  /** Regrouping a concatenation under Take, through one intermediate step. */
  lemma TakeRegroup<T>(x: seq<T>, y: seq<T>, a: seq<T>, b: seq<T>, c: seq<T>, bc: seq<T>, n: nat)
    requires x == y && y == Take(a + b + c, n) && bc == b + c
    ensures x == Take(a + bc, n)
  {
    assert a + b + c == a + (b + c);
  }
}
