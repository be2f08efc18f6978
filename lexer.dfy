/** The tokenizer of src/shell.c: a one-pass scanner over the command line with a
    quote flag that persists from one token to the next. A C string is modelled
    by the characters before its terminator. */
module Lexer {
  import opened ShellBase

  /** Where the scan of one word stopped, the quote flag there, and how many
      characters it counted (quotes are not counted). */
  datatype WordScan = WordScan(end: nat, inQuotes: bool, len: nat)

  /** The inner loop of tokenize: scans from position i with quote flag q and
      counter len. Outside quotes a blank or an operator ends the word; a quote
      toggles the flag and is not counted; every other character is counted. */
  function ScanWord(line: string, i: nat, q: bool, len: nat): (r: WordScan)
    requires i <= |line|
    ensures i <= r.end <= |line|
    ensures len <= r.len <= len + (r.end - i)
    ensures r.end < |line| ==> !r.inQuotes && (IsBlank(line[r.end]) || IsOperator(line[r.end]))
    decreases |line| - i
  {
    if i == |line| then WordScan(i, q, len)
    else if !q && (IsBlank(line[i]) || IsOperator(line[i])) then WordScan(i, q, len)
    else if line[i] == '"' then ScanWord(line, i + 1, !q, len)
    else ScanWord(line, i + 1, q, len + 1)
  }

  /** The outer loop of tokenize from position i, quote flag q, and the tokens
      toks produced so far. A word's text is the first `len` raw characters
      from where it starts, quotes included. */
  function LexFrom(line: string, i: nat, q: bool, toks: seq<string>): (r: seq<string>)
    requires i <= |line| && |toks| <= MAXARGS
    ensures |toks| <= |r| <= MAXARGS && toks <= r
    decreases |line| - i
  {
    if i == |line| || |toks| == MAXARGS then toks
    else
      var j := SkipBlanks(line, i);
      if j == |line| then toks
      else if line[j] == '"' then LexFrom(line, j + 1, !q, toks)
      else if !q && IsOperator(line[j]) then LexFrom(line, j + 1, q, toks + [[line[j]]])
      else
        var w := ScanWord(line, j + 1, q, 1);
        LexFrom(line, w.end, w.inQuotes, toks + [line[j..j + w.len]])
  }

  /** What tokenize returns: NULL (None) for an empty line, a line that starts
      with a newline, or a line that yields no token; otherwise between one and
      MAXARGS tokens. */
  function Tokens(line: string): (r: Option<seq<string>>)
    ensures r.Some? ==> 0 < |r.value| <= MAXARGS
    ensures line == [] || line[0] == '\n' ==> r.None?
  {
    if line == [] || line[0] == '\n' then None
    else
      var toks := LexFrom(line, 0, false, []);
      if toks == [] then None else Some(toks)
  }

  /** Every token Tokens produces fits its ARGLEN-byte buffer with its terminator. */
  predicate TokensFit(line: string) {
    Tokens(line).Some? ==> forall t <- Tokens(line).value :: |t| < ARGLEN
  }

  lemma LexFromQuote(line: string, i: nat, q: bool, toks: seq<string>)
    requires i < |line| && |toks| < MAXARGS
    requires SkipBlanks(line, i) < |line| && line[SkipBlanks(line, i)] == '"'
    ensures LexFrom(line, i, q, toks) == LexFrom(line, SkipBlanks(line, i) + 1, !q, toks)
  {
  }

  lemma LexFromOperator(line: string, i: nat, q: bool, toks: seq<string>)
    requires i < |line| && |toks| < MAXARGS
    requires SkipBlanks(line, i) < |line| && !q && IsOperator(line[SkipBlanks(line, i)])
    ensures var j := SkipBlanks(line, i);
      LexFrom(line, i, q, toks) == LexFrom(line, j + 1, q, toks + [[line[j]]])
  {
  }

  /** The word step of LexFrom, for a scan that stopped at e with quote flag
      q' after counting n characters. */
  lemma LexFromWord(line: string, i: nat, q: bool, toks: seq<string>, e: nat, q': bool, n: nat)
    requires i < |line| && |toks| < MAXARGS
    requires SkipBlanks(line, i) < |line|
    requires line[SkipBlanks(line, i)] != '"' && !(!q && IsOperator(line[SkipBlanks(line, i)]))
    requires ScanWord(line, SkipBlanks(line, i) + 1, q, 1) == WordScan(e, q', n)
    ensures SkipBlanks(line, i) + n <= |line|
    ensures LexFrom(line, i, q, toks) == LexFrom(line, e, q', toks + [line[SkipBlanks(line, i)..SkipBlanks(line, i) + n]])
  {
  }

  /** The word-reading loop of tokenize (source lines 58-78): from the
      character after a word's first one, returns where the scan stopped, the
      quote flag there, and the count of non-quote characters, the first one
      included. */
  method ScanToken(line: string, start: nat, q: bool) returns (cp: nat, inQuotes: bool, len: nat)
    requires start < |line|
    ensures WordScan(cp, inQuotes, len) == ScanWord(line, start + 1, q, 1)
  {
    inQuotes, len := q, 1;
    cp := start + 1;
    while cp < |line|
      invariant start < cp <= |line| && 1 <= len <= cp - start
      invariant ScanWord(line, cp, inQuotes, len) == ScanWord(line, start + 1, q, 1)
      decreases |line| - cp
    {
      if !inQuotes && (IsBlank(line[cp]) || IsOperator(line[cp])) {
        break;
      }
      if line[cp] == '"' {
        inQuotes := !inQuotes;
      } else {
        len := len + 1;
      }
      cp := cp + 1;
    }
  }

  /** The blank-skipping loop at the top of tokenize's outer loop. */
  method SkipBlankRun(line: string, i: nat) returns (j: nat)
    requires i <= |line|
    ensures j == SkipBlanks(line, i)
  {
    j := i;
    while j < |line| && IsBlank(line[j])
      invariant i <= j <= |line| && SkipBlanks(line, j) == SkipBlanks(line, i)
    {
      j := j + 1;
    }
  }

  /** One pass of tokenize's outer loop (source lines 38-82): skip blanks, then
      toggle the quote flag, emit an operator, or read a word. `done` is the
      break at the end of the line. */
  method LexStep(line: string, cp0: nat, q: bool, toks0: seq<string>)
    returns (cp: nat, inQuotes: bool, toks: seq<string>, done: bool)
    requires cp0 < |line| && |toks0| < MAXARGS
    ensures cp <= |line| && |toks| <= MAXARGS
    ensures LexFrom(line, cp, inQuotes, toks) == LexFrom(line, cp0, q, toks0)
    ensures done ==> cp == |line|
    ensures !done ==> cp > cp0
  {
    var start := SkipBlankRun(line, cp0);
    if start == |line| {
      return start, q, toks0, true;
    }
    cp, inQuotes, toks := LexToken(line, cp0, start, q, toks0);
    done := false;
  }

  /** The rest of one pass, once blanks are skipped up to start: a quote
      toggles the flag, an operator outside quotes is a token of its own,
      anything else starts a word. */
  method LexToken(line: string, cp0: nat, start: nat, q: bool, toks0: seq<string>)
    returns (cp: nat, inQuotes: bool, toks: seq<string>)
    requires cp0 < |line| && |toks0| < MAXARGS
    requires start == SkipBlanks(line, cp0) < |line|
    ensures start < cp <= |line| && |toks| <= MAXARGS
    ensures LexFrom(line, cp, inQuotes, toks) == LexFrom(line, cp0, q, toks0)
  {
    if line[start] == '"' {
      LexFromQuote(line, cp0, q, toks0);
      return start + 1, !q, toks0;
    }
    if !q && IsOperator(line[start]) {
      LexFromOperator(line, cp0, q, toks0);
      return start + 1, q, toks0 + [[line[start]]];
    }
    cp, inQuotes, toks := WordToken(line, cp0, start, q, toks0);
  }

  /** A word: its text is the first len raw characters from its start. */
  method WordToken(line: string, cp0: nat, start: nat, q: bool, toks0: seq<string>)
    returns (cp: nat, inQuotes: bool, toks: seq<string>)
    requires cp0 < |line| && |toks0| < MAXARGS
    requires start == SkipBlanks(line, cp0) < |line|
    requires line[start] != '"' && !(!q && IsOperator(line[start]))
    ensures start < cp <= |line| && |toks| <= MAXARGS
    ensures LexFrom(line, cp, inQuotes, toks) == LexFrom(line, cp0, q, toks0)
  {
    var len;
    cp, inQuotes, len := ScanToken(line, start, q);
    LexFromWord(line, cp0, q, toks0, cp, inQuotes, len);
    toks := toks0 + [line[start..start + len]];
  }

  /** tokenize: the scanner with its quote flag and token counter; NULL for a
      line that is empty, starts with a newline, or yields no token. */
  method Tokenize(line: string) returns (r: Option<seq<string>>)
    requires TokensFit(line)
    ensures r == Tokens(line)
  {
    if line == [] || line[0] == '\n' {
      return None;
    }
    ghost var all := LexFrom(line, 0, false, []);
    var cp := 0;
    var inQuotes := false;
    var toks: seq<string> := [];
    var done := false;
    while !done && cp < |line| && |toks| < MAXARGS
      invariant cp <= |line| && |toks| <= MAXARGS
      invariant LexFrom(line, cp, inQuotes, toks) == all
      invariant done ==> cp == |line|
      decreases |line| - cp, !done
    {
      cp, inQuotes, toks, done := LexStep(line, cp, inQuotes, toks);
    }
    assert LexFrom(line, cp, inQuotes, toks) == toks;
    if toks == [] {
      return None;
    }
    r := Some(toks);
  }

  /** The argument list tokenize hands back: MAXARGS + 1 slots, the tokens in
      order, and NULL right after the last one. */
  method ToArgList(toks: seq<string>) returns (a: array<Option<string>>)
    requires |toks| <= MAXARGS
    ensures fresh(a) && a.Length == MAXARGS + 1
    ensures forall k :: 0 <= k < |toks| ==> a[k] == Some(toks[k])
    ensures a[|toks|] == None
  {
    a := new Option<string>[MAXARGS + 1](_ => None);
    var i := 0;
    while i < |toks|
      invariant i <= |toks|
      invariant forall k :: 0 <= k < i ==> a[k] == Some(toks[k])
      invariant forall k :: i <= k < a.Length ==> a[k] == None
    {
      a[i] := Some(toks[i]);
      i := i + 1;
    }
  }

  // ---------------------------------------------------------------------
  // Properties of the scanner

  /** LexFrom emits nothing exactly when every remaining character is a
      blank or a quote. */
  lemma {:induction false} LexFromEmpty(line: string, i: nat, q: bool, toks: seq<string>)
    requires i <= |line| && |toks| < MAXARGS
    ensures LexFrom(line, i, q, toks) == toks
        <==> forall k :: i <= k < |line| ==> IsBlank(line[k]) || line[k] == '"'
    decreases |line| - i
  {
    if i < |line| {
      var j := SkipBlanks(line, i);
      if j < |line| {
        if line[j] == '"' {
          LexFromEmpty(line, j + 1, !q, toks);
        } else if !q && IsOperator(line[j]) {
          assert |LexFrom(line, i, q, toks)| > |toks|;
        } else {
          var w := ScanWord(line, j + 1, q, 1);
          assert |LexFrom(line, i, q, toks)| > |toks|;
        }
      }
    }
  }

  /** tokenize returns NULL exactly for an empty line, a line starting with a
      newline, and a line made only of spaces, tabs and quotes. */
  lemma TokensNoneIff(line: string)
    ensures Tokens(line).None?
        <==> line == [] || line[0] == '\n'
             || forall k :: 0 <= k < |line| ==> IsBlank(line[k]) || line[k] == '"'
  {
    if line != [] && line[0] != '\n' {
      LexFromEmpty(line, 0, false, []);
    }
  }

  /** No token is empty. */
  lemma {:induction false} LexFromNonEmpty(line: string, i: nat, q: bool, toks: seq<string>)
    requires i <= |line| && |toks| <= MAXARGS
    requires forall t <- toks :: t != []
    ensures forall t <- LexFrom(line, i, q, toks) :: t != []
    decreases |line| - i
  {
    if i < |line| && |toks| < MAXARGS {
      var j := SkipBlanks(line, i);
      if j < |line| {
        if line[j] == '"' {
          LexFromNonEmpty(line, j + 1, !q, toks);
        } else if !q && IsOperator(line[j]) {
          LexFromNonEmpty(line, j + 1, q, toks + [[line[j]]]);
        } else {
          var w := ScanWord(line, j + 1, q, 1);
          LexFromNonEmpty(line, w.end, w.inQuotes, toks + [line[j..j + w.len]]);
        }
      }
    }
  }

  /** End of the word starting at i: the first blank or operator at or after
      i, or the end of the line. */
  function WordEnd(line: string, i: nat): (e: nat)
    requires i <= |line|
    ensures i <= e <= |line|
    ensures forall k :: i <= k < e ==> !IsBlank(line[k]) && !IsOperator(line[k])
    ensures e < |line| ==> IsBlank(line[e]) || IsOperator(line[e])
    decreases |line| - i
  {
    if i == |line| || IsBlank(line[i]) || IsOperator(line[i]) then i else WordEnd(line, i + 1)
  }

  /** Reference lexer for text without quotes, from position i: spaces and tabs
      separate words, and each operator character is a token of its own that
      also ends the word before it. */
  function Plain(line: string, i: nat): seq<string>
    requires i <= |line|
    decreases |line| - i
  {
    if i == |line| then []
    else if IsBlank(line[i]) then Plain(line, i + 1)
    else if IsOperator(line[i]) then [[line[i]]] + Plain(line, i + 1)
    else [line[i..WordEnd(line, i)]] + Plain(line, WordEnd(line, i))
  }

  /** Outside quotes, a run of ordinary characters is counted one by one. */
  lemma {:induction false} ScanUnquotedRun(line: string, i: nat, m: nat, len: nat)
    requires i <= m <= |line|
    requires forall k :: i <= k < m ==> !IsBlank(line[k]) && !IsOperator(line[k]) && line[k] != '"'
    ensures ScanWord(line, i, false, len) == ScanWord(line, m, false, len + (m - i))
    decreases m - i
  {
    if i < m {
      ScanUnquotedRun(line, i + 1, m, len + 1);
    }
  }

  /** Inside quotes, every character but a quote is counted, blanks and
      operators included. */
  lemma {:induction false} ScanQuotedRun(line: string, i: nat, m: nat, len: nat)
    requires i <= m <= |line|
    requires forall k :: i <= k < m ==> line[k] != '"'
    ensures ScanWord(line, i, true, len) == ScanWord(line, m, true, len + (m - i))
    decreases m - i
  {
    if i < m {
      ScanQuotedRun(line, i + 1, m, len + 1);
    }
  }

  lemma {:induction false} PlainSkipsBlanks(line: string, i: nat)
    requires i <= |line|
    ensures Plain(line, i) == Plain(line, SkipBlanks(line, i))
    decreases |line| - i
  {
    if i < |line| && IsBlank(line[i]) {
      PlainSkipsBlanks(line, i + 1);
    }
  }

  /** The operator step of LexPlainFrom, given the result for the rest of the line. */
  lemma LexPlainOperator(line: string, i: nat, toks: seq<string>)
    requires i < |line| && |toks| < MAXARGS
    requires SkipBlanks(line, i) < |line| && IsOperator(line[SkipBlanks(line, i)])
    requires var j := SkipBlanks(line, i);
      LexFrom(line, j + 1, false, toks + [[line[j]]])
        == Take(toks + [[line[j]]] + Plain(line, j + 1), MAXARGS)
    ensures LexFrom(line, i, false, toks) == Take(toks + Plain(line, i), MAXARGS)
  {
    var j := SkipBlanks(line, i);
    PlainSkipsBlanks(line, i);
    LexFromOperator(line, i, false, toks);
    assert Plain(line, j) == [[line[j]]] + Plain(line, j + 1);
    assert toks + [[line[j]]] + Plain(line, j + 1) == toks + ([[line[j]]] + Plain(line, j + 1));
  }

  /** A word of Plain: the text up to its end, then the rest of the line. */
  lemma PlainWordStep(line: string, j: nat)
    requires j < |line| && !IsBlank(line[j]) && !IsOperator(line[j])
    ensures Plain(line, j) == [line[j..WordEnd(line, j)]] + Plain(line, WordEnd(line, j))
  {
  }

  /** The word step of LexPlainFrom, given how the word was scanned and the
      result for the rest of the line. */
  lemma LexPlainWord(line: string, i: nat, toks: seq<string>)
    requires i < |line| && |toks| < MAXARGS
    requires SkipBlanks(line, i) < |line| && line[SkipBlanks(line, i)] != '"'
    requires !IsOperator(line[SkipBlanks(line, i)])
    requires forall k :: i <= k < |line| ==> line[k] != '"'
    requires var j := SkipBlanks(line, i);
      var e := WordEnd(line, j);
      LexFrom(line, e, false, toks + [line[j..e]]) == Take(toks + [line[j..e]] + Plain(line, e), MAXARGS)
    ensures LexFrom(line, i, false, toks) == Take(toks + Plain(line, i), MAXARGS)
  {
    var j := SkipBlanks(line, i);
    var e := WordEnd(line, j);
    ScanUnquotedRun(line, j + 1, e, 1);
    var word := line[j..e];
    var rest := Plain(line, e);
    LexFromWordTo(line, i, false, toks, e, false);
    PlainSkipsBlanks(line, i);
    PlainWordStep(line, j);
    TakeRegroup(LexFrom(line, i, false, toks), LexFrom(line, e, false, toks + [word]),
      toks, [word], rest, Plain(line, i), MAXARGS);
  }

  /** LexFromWord for a word whose counted length is the distance it was
      scanned, stated by where the word ends. */
  lemma LexFromWordTo(line: string, i: nat, q: bool, toks: seq<string>, e: nat, q': bool)
    requires i < |line| && |toks| < MAXARGS
    requires SkipBlanks(line, i) < |line|
    requires line[SkipBlanks(line, i)] != '"' && !(!q && IsOperator(line[SkipBlanks(line, i)]))
    requires var w := ScanWord(line, SkipBlanks(line, i) + 1, q, 1);
      w.end == e && w.inQuotes == q' && SkipBlanks(line, i) + w.len == e
    ensures LexFrom(line, i, q, toks) == LexFrom(line, e, q', toks + [line[SkipBlanks(line, i)..e]])
  {
    LexFromWord(line, i, q, toks, e, q', e - SkipBlanks(line, i));
  }

  lemma {:induction false} LexPlainFrom(line: string, i: nat, toks: seq<string>)
    requires i <= |line| && |toks| <= MAXARGS
    requires forall k :: i <= k < |line| ==> line[k] != '"'
    ensures LexFrom(line, i, false, toks) == Take(toks + Plain(line, i), MAXARGS)
    decreases |line| - i
  {
    if i == |line| {
      assert toks + Plain(line, i) == toks;
    } else if |toks| == MAXARGS {
      assert (toks + Plain(line, i))[..MAXARGS] == toks;
    } else {
      var j := SkipBlanks(line, i);
      if j == |line| {
        PlainSkipsBlanks(line, i);
        assert toks + Plain(line, i) == toks;
      } else if IsOperator(line[j]) {
        LexPlainFrom(line, j + 1, toks + [[line[j]]]);
        LexPlainOperator(line, i, toks);
      } else {
        LexPlainFrom(line, WordEnd(line, j), toks + [line[j..WordEnd(line, j)]]);
        LexPlainWord(line, i, toks);
      }
    }
  }

  /** On a line without quotes, tokenize agrees with the reference lexer: words
      split at spaces and tabs, each of < > | & ; a token of its own, at most
      MAXARGS tokens kept. */
  lemma PlainLexing(line: string)
    requires line != [] && line[0] != '\n' && '"' !in line
    ensures Tokens(line) == if Plain(line, 0) == [] then None else Some(Take(Plain(line, 0), MAXARGS))
  {
    LexPlainFrom(line, 0, []);
    assert [] + Plain(line, 0) == Plain(line, 0);
  }

  /** A quoted phrase is one token with its blanks and operators kept and its
      quotes dropped; blanks right after the opening quote are skipped, and a
      missing closing quote is tolerated. */
  lemma QuotedPhrase(blanks: string, w: string, closed: bool)
    requires AllBlank(blanks) && w != [] && !IsBlank(w[0]) && '"' !in w
    ensures Tokens(['"'] + blanks + w + (if closed then ['"'] else [])) == Some([w])
  {
    var line := ['"'] + blanks + w + (if closed then ['"'] else []);
    var j := 1 + |blanks|;
    assert line[0] == '"' && line[j] == w[0];
    assert forall k :: 1 <= k < j ==> line[k] == blanks[k - 1];
    assert SkipBlanks(line, 1) == j;
    assert line[j..] == w + (if closed then ['"'] else []);
    assert line[j..j + |w|] == w;
    var q' := QuotedScan(line, j, w, closed);
    OpeningQuoteThenWord(line, j, w, q');
  }

  /** A line that opens with a quote and holds one word that the scan reads
      to the end of the line yields that word alone. */
  lemma OpeningQuoteThenWord(line: string, j: nat, w: string, q': bool)
    requires 1 <= j < |line| && line[0] == '"' && SkipBlanks(line, 1) == j && line[j] != '"'
    requires j + |w| <= |line| && line[j..j + |w|] == w
    requires ScanWord(line, j + 1, true, 1) == WordScan(|line|, q', |w|)
    ensures Tokens(line) == Some([w])
  {
    assert SkipBlanks(line, 0) == 0;
    LexFromQuote(line, 0, false, []);
    LastWord(line, j, w, q');
  }

  /** Inside quotes from position 1, the one word up to the end of the line. */
  lemma LastWord(line: string, j: nat, w: string, q': bool)
    requires 1 <= j < |line| && SkipBlanks(line, 1) == j && line[j] != '"'
    requires j + |w| <= |line| && line[j..j + |w|] == w
    requires ScanWord(line, j + 1, true, 1) == WordScan(|line|, q', |w|)
    ensures LexFrom(line, 1, true, []) == [w]
  {
    LexFromWord(line, 1, true, [], |line|, q', |w|);
    assert LexFrom(line, |line|, q', [w]) == [w];
  }

  /** The scan of the quoted word of QuotedPhrase runs to the end of the line. */
  lemma QuotedScan(line: string, j: nat, w: string, closed: bool) returns (q': bool)
    requires j < |line| && w != [] && '"' !in w && line[j..] == w + (if closed then ['"'] else [])
    ensures ScanWord(line, j + 1, true, 1) == WordScan(|line|, q', |w|)
  {
    var m := j + |w|;
    forall k | j + 1 <= k < m ensures line[k] != '"' {
      assert line[k] == line[j..][k - j] == w[k - j];
      assert w[k - j] in w;
    }
    ScanQuotedRun(line, j + 1, m, 1);
    if closed {
      assert line[m] == line[j..][|w|] == '"';
      q' := false;
    } else {
      q' := true;
    }
  }

  /** A quote inside a word is copied, and the word loses as many characters at
      its end as it had quotes: `pre"mid"` yields its first |pre| + |mid| raw
      characters. */
  lemma QuoteInsideWord(pre: string, mid: string)
    requires pre != [] && pre[0] != '\n' && '"' !in pre && '"' !in mid
    requires forall k :: 0 <= k < |pre| ==> !IsBlank(pre[k]) && !IsOperator(pre[k])
    ensures var line := pre + ['"'] + mid + ['"'];
      Tokens(line) == Some([line[..|pre| + |mid|]])
  {
    var line := pre + ['"'] + mid + ['"'];
    var p := |pre|;
    assert line[0] == pre[0];
    assert SkipBlanks(line, 0) == 0;
    QuotedWordScan(line, pre, mid);
    LexFromWord(line, 0, false, [], |line|, false, p + |mid|);
    assert line[0..p + |mid|] == line[..p + |mid|];
    assert LexFrom(line, 0, false, []) == LexFrom(line, |line|, false, [line[..p + |mid|]]) == [line[..p + |mid|]];
  }

  /** The scan of the word of QuoteInsideWord: both quotes toggle the flag and
      are not counted, and the scan runs to the end of the line. */
  lemma QuotedWordScan(line: string, pre: string, mid: string)
    requires line == pre + ['"'] + mid + ['"'] && pre != [] && '"' !in pre && '"' !in mid
    requires forall k :: 0 <= k < |pre| ==> !IsBlank(pre[k]) && !IsOperator(pre[k])
    ensures ScanWord(line, 1, false, 1) == WordScan(|line|, false, |pre| + |mid|)
  {
    var p := |pre|;
    assert forall k :: 1 <= k < p ==> line[k] == pre[k];
    ScanUnquotedRun(line, 1, p, 1);
    assert line[p] == '"';
    assert ScanWord(line, p, false, p) == ScanWord(line, p + 1, true, p);
    assert forall k :: p + 1 <= k < p + 1 + |mid| ==> line[k] == mid[k - p - 1];
    ScanQuotedRun(line, p + 1, p + 1 + |mid|, p);
    assert line[p + 1 + |mid|] == '"';
  }
}
