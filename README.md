# A verified model of a small Unix shell's command bookkeeping

This project models, in Dafny, the part of a small interactive C shell that
decides *what* to run: everything except the code that actually runs it.

- **Lexer** (`src/shell.c`, `tokenize`). A one-pass scanner with a quote flag
  that persists from token to token. Outside quotes, `< > | & ;` become
  one-character tokens. At most `MAXARGS` tokens are produced, and a line with
  no token gives NULL.
- **Chaining** (`src/shell.c`, `handle_chain_commands`). Only the splitting
  half is modelled: the line is cut at every `;`, each piece is trimmed of
  spaces and tabs, empty pieces are dropped, and at most `MAXARGS` commands are
  kept.
- **Argument-list transformers** (`src/execute.c`). Each works in place on a
  NULL-terminated argument list, modelled as an `array<Option<string>>` where
  `None` is NULL. `Args` is the list of strings before the first NULL.
  - `handle_background` strips a trailing `&`.
  - `parse_redirection` takes the file after the first `<` or `>`.
  - The first half of `handle_pipe` splits the list at the first `|`.
  - `expand_variables` replaces `$NAME` tokens.
- **Bounded stores** (`src/execute.c`). Each is a class over fixed-size arrays
  with a count, updated in place as the C globals are:
  - the shell variables (`is_variable_assignment`, `handle_variables`);
  - the command history (`add_to_history`, `execute_from_history`);
  - the background-job table (the append in `execute` and the compaction in
    `cleanup_background_jobs`).

Each method is proved equal to a specification function, or to a state
change described by one. Lemmas then prove what the shell promises of that
function: round trips, "only if" and "if" directions, bounds, and frames.

Constants come from `include/shell.h`: `MAX_LEN` = 1024, `MAXARGS` = 64,
`ARGLEN` = 64, `HISTORY_SIZE` = 20 and `MAX_JOBS` = 20. `MAX_VARS` has no
definition there, so it is a positive parameter of the variable store's
constructor.

The behaviour of the C code is kept literally, including where its comments
or its design intend something else:

- **A quote inside a word is copied.** A `"` toggles the quote flag and is not
  counted in the token's length. The token, however, is the first `len` raw
  bytes from where it starts. So `"hello world"` yields `hello world`, but
  `ab"cd"` yields `ab"c`: the quote is kept and the tail is lost
  (`Lexer.QuoteInsideWord`).
- **Expansion replaces the whole token.** The environment is consulted before
  the shell variables. Anything after the name, such as `/x` in `$HOME/x`, is
  dropped.
- **Only the first redirection is honoured.** `parse_redirection` clears the
  operator's slot and the next one, which ends its scan.

Module layout: `ShellBase` (constants and character classes, `base.dfy`),
`Lexer`, `Chaining`, `ArgList`, `Variables`, `Expansion`, `History` and `Jobs`,
one file each.

## Model

| member | source | states |
|---|---|---|
| `Lexer.Tokenize` | src/shell.c:20-93 | The scanning loop returns exactly the token list `Tokens` defines for the line. |
| `Lexer.Tokens` | src/shell.c:85-91 | A token list is never empty and holds at most MAXARGS tokens. An empty line and a line starting with a newline give NULL. |
| `ShellBase.SkipBlanks` | src/shell.c:38 | Blank skipping stops at the first character that is neither a space nor a tab, and everything it skips is blank. The tokenizer uses it at each token start, and the chaining code uses it to trim the start of a command (src/shell.c:109). |
| `Lexer.SkipBlankRun` | src/shell.c:38 | The blank-skipping loop stops where `SkipBlanks` says. |
| `Lexer.ScanWord` | src/shell.c:62-78 | A word scan stops only at the end of the line or, outside quotes, at a blank or an operator. The counted length grows by at most one per character scanned. |
| `Lexer.ScanToken` | src/shell.c:58-78 | The inner word loop ends where `ScanWord` ends, with the same quote flag and length. |
| `Lexer.LexFrom` | src/shell.c:37-83 | Scanning from any point keeps the tokens already produced as a prefix of the result and never goes beyond MAXARGS tokens. |
| `Lexer.LexStep` | src/shell.c:37-83 | One pass of the outer loop either reaches the end of the line or advances. Either way, the tokens still to come are unchanged. |
| `Lexer.LexToken` | src/shell.c:43-82 | After the blanks, a quote, an operator or a word is consumed, and the tokens still to come are unchanged. |
| `Lexer.WordToken` | src/shell.c:58-82 | A word is emitted as its first `len` raw characters, and the tokens still to come are unchanged. |
| `Lexer.LexFromQuote` | src/shell.c:43-47 | A `"` toggles the quote flag and produces no token. |
| `Lexer.LexFromOperator` | src/shell.c:50-56 | Outside quotes, an operator character becomes a one-character token of its own. |
| `Lexer.LexFromWord` | src/shell.c:58-82 | A word's token is the first `len` raw characters from the word's start, and scanning resumes where the word scan ended. |
| `Lexer.ToArgList` | src/shell.c:85-92 | The tokens fill the first slots of a fresh MAXARGS + 1 slot list, and the slot after them is NULL. |
| `Lexer.LexFromEmpty` | src/shell.c:85-89 | A remainder made only of blanks and quotes produces no token. |
| `Lexer.TokensNoneIff` | src/shell.c:21-89 | tokenize returns NULL exactly for an empty line, a line starting with a newline, or a line made only of spaces, tabs and quotes. |
| `Lexer.LexFromNonEmpty` | src/shell.c:58-82 | No token is empty. |
| `Lexer.WordEnd` | src/shell.c:62-66 | An unquoted word runs up to the first blank or operator character. |
| `Lexer.ScanUnquotedRun` | src/shell.c:63-77 | Outside quotes, ordinary characters are each counted once. |
| `Lexer.ScanQuotedRun` | src/shell.c:71-77 | Inside quotes, blanks and operator characters are ordinary token characters. |
| `Lexer.PlainSkipsBlanks` | src/shell.c:38 | Leading blanks contribute nothing to the tokens of a quote-free line. |
| `Lexer.LexPlainOperator` | src/shell.c:50-56 | On a quote-free line, an operator goes into the token list as it does in the reference splitting `Plain`. |
| `Lexer.PlainWordStep` | src/shell.c:58-66 | The reference splitting takes a maximal run of non-blank, non-operator characters as one word. |
| `Lexer.LexPlainWord` | src/shell.c:58-82 | On a quote-free line, the scanner's word is the reference splitting's word. |
| `Lexer.LexFromWordTo` | src/shell.c:58-82 | A corollary of `LexFromWord`: when the counted length equals the distance scanned, the token is the whole text up to where the scan stopped. |
| `Lexer.LexPlainFrom` | src/shell.c:37-83 | On a quote-free remainder, the scanner yields the reference splitting into words and operators, cut at MAXARGS. |
| `Lexer.PlainLexing` | src/shell.c:20-93 | A quote-free line that is not empty and does not start with a newline tokenizes to its words and operators, cut at MAXARGS, or to NULL when there are none. |
| `Lexer.QuotedPhrase` | src/shell.c:43-81 | An opening quote, blanks, then a phrase (with or without a closing quote) yield the phrase as one token. The leading blanks are skipped even inside quotes, and an unterminated quote is tolerated. |
| `Lexer.OpeningQuoteThenWord` | src/shell.c:43-47 | A line that opens a quote and then holds one quoted word tokenizes to that word. |
| `Lexer.LastWord` | src/shell.c:58-82 | A quoted word that reaches the end of the line is the last token. |
| `Lexer.QuotedScan` | src/shell.c:71-77 | Inside quotes, the scan counts every character up to the closing quote and runs to the end of the line. |
| `Lexer.QuoteInsideWord` | src/shell.c:58-81 | In `pre"mid"`, the quotes are not counted, yet raw bytes are copied: the token is the line's first (length of pre + length of mid) characters, a quote kept and the tail cut off. |
| `Lexer.QuotedWordScan` | src/shell.c:62-77 | A quote inside a word toggles the flag without being counted, and the scan continues across it. |
| `Chaining.ChainCommands` | src/shell.c:96-139 | Returns 0 and collects nothing when the line has no `;`. Otherwise it returns 1 with exactly the commands `Commands` defines. |
| `Chaining.Collect` | src/shell.c:101-120 | The strtok_r loop collects exactly `Commands(line)`. |
| `Chaining.CollectOne` | src/shell.c:107-119 | Handling one field advances past it and leaves the final result unchanged. |
| `Chaining.Commands` | src/shell.c:107-120 | At most MAXARGS commands are kept. |
| `Chaining.SemiAt` | src/shell.c:102 | The end of the current field lies within the line. |
| `Chaining.NextSemicolon` | src/shell.c:102 | The delimiter search stops where `SemiAt` says. |
| `Chaining.SemiAtShape` | src/shell.c:102 | A field ends at the first `;` or at the end of the line. |
| `Chaining.Fields` | src/shell.c:102-119 | Splitting always yields at least one field. |
| `Chaining.FieldsJoin` | src/shell.c:102-119 | Fields hold no `;`, and joining them with `;` gives the line back. |
| `Chaining.SemiAtShift` | src/shell.c:102 | Where the next `;` falls does not depend on text before the scan position. |
| `Chaining.FieldsShift` | src/shell.c:102-119 | The fields after a position do not depend on text before it. |
| `Chaining.FieldsCons` | src/shell.c:102-119 | Text without `;`, then `;`, then more gives that text as the first field, followed by the fields of the rest. |
| `Chaining.TrailEnd` | src/shell.c:110-114 | Trailing-blank trimming stays within the bounds it starts from. |
| `Chaining.Trim` | src/shell.c:109-114 | Trimming never lengthens. |
| `Chaining.TrailEndShape` | src/shell.c:110-114 | Trailing-blank trimming stops after the last non-blank character. |
| `Chaining.TrimShape` | src/shell.c:109-114 | The trimmed command is the middle of the piece, with only blanks around it, and it is empty or begins and ends with a non-blank. |
| `Chaining.TrimBlanks` | src/shell.c:109-114 | The two trimming loops bound exactly the text `Trim` defines. |
| `Chaining.Kept` | src/shell.c:116-118 | Each piece contributes at most one command. |
| `Chaining.KeptIs` | src/shell.c:109-118 | A piece whose trimmed text is f[lo..hi] contributes exactly that text when it is non-empty, and nothing otherwise. |
| `Chaining.NonBlank` | src/shell.c:107-120 | Dropping empty pieces never adds commands. |
| `Chaining.NonBlankCons` | src/shell.c:116-118 | Pieces are handled in order, each kept or dropped on its own. |
| `Chaining.KeptShape` | src/shell.c:109-118 | A kept command is non-empty, holds no `;`, and is trimmed at both ends. |
| `Chaining.NonBlankShape` | src/shell.c:107-120 | Every collected command is non-empty, free of `;` and trimmed. |
| `Chaining.CommandsShape` | src/shell.c:107-120 | At most MAXARGS commands result, each non-empty, free of `;` and trimmed. |
| `Chaining.EmptyFieldDropped` | src/shell.c:116-118 | An empty piece contributes no command. |
| `Chaining.DoubledSemicolon` | src/shell.c:102-120 | Two consecutive `;` anywhere in the line give the same commands as one. |
| `Chaining.FirstCommand` | src/shell.c:107-118 | The first command is the trimmed text before the first `;`, followed by the commands of the rest, in order. |
| `Chaining.DoubledFields` | src/shell.c:102-120 | The non-empty pieces of a line are the same with a doubled `;` as with a single one, at any position (induction over the pieces before it). |
| `Chaining.PendingStep` | src/shell.c:107-120 | Consuming a field that ends at `;` does not change the collected result. |
| `Chaining.PendingLast` | src/shell.c:107-120 | Consuming the last field does not change the collected result. |
| `Chaining.PendingEnd` | src/shell.c:107-120 | At the end of the line, what has been collected is the result. |
| `Chaining.TakeFull` | src/shell.c:107 | Once MAXARGS commands are collected, nothing more is added. |
| `ArgList.Args` | src/execute.c:228 | The tokens are the slots before the first NULL. |
| `ArgList.ArgsCut` | src/execute.c:234 | Writing NULL at position k of the list leaves the first k tokens. |
| `ArgList.ArgsSuffix` | src/execute.c:312 | The list that starts after position j holds the tokens after j. |
| `ArgList.Foreground` | src/execute.c:232-235 | Stripping removes exactly one token when the list ends in `&`, and none otherwise, keeping a prefix. |
| `ArgList.HandleBackground` | src/execute.c:224-238 | Returns 1 and sets the last token's slot to NULL iff the last token is `&`. Otherwise it returns 0 and the list is unchanged. |
| `ArgList.BackgroundInverse` | src/execute.c:224-238 | A command followed by `&` is recognised as background, and stripping gives the command back. |
| `ArgList.BackgroundStripsOne` | src/execute.c:232-235 | Only one trailing `&` is removed. |
| `ArgList.RedirectAt` | src/execute.c:244-250 | Finds the first `<` or `>`, or the end of the list. |
| `ArgList.ParseRedirect` | src/execute.c:244-254 | Defines the outcome of parse_redirection. The tokens left are the prefix before the first `<` or `>`, and at most one of the two files is set. |
| `ArgList.ParseRedirection` | src/execute.c:240-257 | Without `<` or `>`, both files are NULL and the list is unchanged. Otherwise, at the first operator, that file is set to the next token or NULL, the operator's slot and the next one become NULL, and the tokens before the operator remain. |
| `ArgList.CutAt` | src/execute.c:245-253 | The file is the slot after the operator, and both slots become NULL. |
| `ArgList.RedirectClean` | src/execute.c:240-257 | What remains is a prefix free of `<` and `>`, and at most one of the two files is set. |
| `ArgList.RedirectNoneIff` | src/execute.c:240-257 | The result is "no files, list unchanged" exactly when the list holds no `<` or `>`. |
| `ArgList.RedirectFirstOnly` | src/execute.c:244-254 | For `cmd op file rest...`, the file is taken, the command is what remains, and any later redirection in the rest is dropped. |
| `ArgList.RedirectDangling` | src/execute.c:246-253 | An operator with no token after it sets its file to NULL. |
| `ArgList.RedirectAtIs` | src/execute.c:244-250 | The first operator position is the one with no operator before it. |
| `ArgList.PipeAt` | src/execute.c:299-304 | Finds the first pipe token, or the end of the list. |
| `ArgList.SplitAtPipe` | src/execute.c:299-312 | Defines the split at the first pipe token. The left part is a prefix of the list, and left part, pipe token and right part account for every token. |
| `ArgList.FindPipe` | src/execute.c:299-304 | The search loop stops at the first pipe token or at the NULL. |
| `ArgList.SplitPipe` | src/execute.c:296-317 | Returns 0 and leaves the list unchanged iff there is no pipe token. Otherwise the slot of the first pipe token becomes NULL, the left list is the tokens before it and the right list the tokens after it, and the result is -1 iff the right list is empty (1 otherwise). |
| `ArgList.SplitJoin` | src/execute.c:299-312 | There is no split iff there is no pipe token. A split loses nothing: left part, pipe token and right part make the list again, and the left part holds no pipe token. |
| `ArgList.SplitOf` | src/execute.c:299-312 | Conversely, a pipe-free command, a pipe token and anything after it split back into those two commands. |
| `ArgList.PipeAtIs` | src/execute.c:299-304 | The first pipe token is the one with no pipe token before it. |
| `ArgList.PipeAtIsNone` | src/execute.c:299-304 | A list without a pipe token is searched to its end. |
| `Variables.IsVariableAssignment` | src/execute.c:18-47 | True iff the first token exists and is an assignment: it contains `=`, the first `=` is not at index 0, every character before it is alphanumeric or `_`, and the first character is not a digit. |
| `Variables.IsAssignmentToken` | src/execute.c:24-46 | Defines the test of is_variable_assignment on one token. Every assignment token yields an assignment under a non-empty name. |
| `Variables.FindChar` | src/execute.c:24 | The scan finds the first occurrence of the character, or the end. |
| `Variables.AssignmentTokenShape` | src/execute.c:26-44 | `name=rest` is an assignment iff the name is non-empty, made of name characters, and does not start with a digit. |
| `Variables.StripQuotesInverse` | src/execute.c:61-74 | Storing a value in surrounding quotes gives the value back. |
| `Variables.StripQuotes` | src/execute.c:61-74 | Defines the stored value. It is either the value verbatim or, for a value longer than one character, the value with one surrounding pair of quotes removed. |
| `Variables.Assignment` | src/execute.c:53-59 | There is an assignment iff the token has `=`. The name is the `=`-free text before the first `=`. |
| `Variables.IndexOfName` | src/execute.c:79-85 | Finds the first entry with this name, or the count. |
| `Variables.Lookup` | src/execute.c:133-138 | A name has a value iff some entry has that name, and the value is one stored under the name. |
| `Variables.Bind` | src/execute.c:78-95 | Defines the table after handle_variables. It grows by at most one entry and never beyond the capacity. |
| `Variables.BindThenLookup` | src/execute.c:78-95 | After storing, the name looks up to the stored value, unless it was new and the table was full, in which case it stays unbound. |
| `Variables.BindOther` | src/execute.c:78-95 | Storing one name leaves every other name's value unchanged. |
| `Variables.BindKeepsTable` | src/execute.c:78-95 | Names stay distinct and the count stays within MAX_VARS. The count grows by one only for a new name with room. A full table without the name is unchanged. |
| `Variables.IndexOfNameIs` | src/execute.c:79-85 | The first match is the entry with no match before it. |
| `Variables.IndexOfNameNone` | src/execute.c:79-85 | A name that is not in the table is searched to its end. |
| `Variables.Zip` | src/execute.c:13-15 | Entry i pairs var_names[i] with var_values[i]. |
| `Variables.VarStore.constructor` | src/execute.c:13-15 | The table starts empty, with capacity MAX_VARS. |
| `Variables.VarStore.Find` | src/execute.c:79-85 | The search loop stops at the first entry with the name, or at var_count. |
| `Variables.VarStore.Get` | src/execute.c:133-138 | The value of the first entry with the name, or none. |
| `Variables.VarStore.Store` | src/execute.c:78-95 | Overwrites the existing entry in place, or appends when there is room, or leaves a full table unchanged (the `Bind` state). |
| `Variables.VarStore.Assign` | src/execute.c:50-96 | A missing token or one without `=` changes nothing. Otherwise the first token is cut to its name (the `=` becomes the terminator), and the table becomes `Bind` of the name and the quote-stripped value. |
| `Expansion.NameEnd` | src/execute.c:108-118 | The name scan stays within the token. |
| `Expansion.NameEndShape` | src/execute.c:108-118 | The name is made of name characters, is at most ARGLEN - 1 long, and stops at a non-name character, the end, or the cap. |
| `Expansion.LeadingNameShape` | src/execute.c:108-118 | The name is a prefix of the text after `$`, made of name characters, at most ARGLEN - 1 long, and as long as possible. |
| `Expansion.LeadingNameOf` | src/execute.c:108-118 | A name followed by a character that cannot continue it is read exactly. |
| `Expansion.ExpandToken` | src/execute.c:101-146 | Defines the expansion of one token. A token changes only if it starts with `$` and has more than one character, and then only into a value of the environment or of a shell variable. |
| `Expansion.NameEndIs` | src/execute.c:110-116 | The scan ends at the first position that stops it. |
| `Expansion.ExpandAll` | src/execute.c:100-148 | Expansion never changes the number of tokens. |
| `Expansion.ScanName` | src/execute.c:108-118 | The scanning loop extracts exactly `LeadingName`. |
| `Expansion.ExpandOne` | src/execute.c:101-146 | One token is expanded as `ExpandToken` says, with the current shell variables. |
| `Expansion.ExpandVariables` | src/execute.c:99-149 | Every token is replaced by its expansion, and the NULL and the slots after it are untouched. |
| `Expansion.ExpandBound` | src/execute.c:120-145 | For `$NAME...`, the whole token becomes the environment's value if NAME is set there, otherwise the first shell variable's value, otherwise it stays as it is. Any text after the name is dropped. |
| `Expansion.ExpandVerbatim` | src/execute.c:104-123 | A token not starting with `$`, a lone `$`, or `$` followed by a non-name character is kept verbatim. |
| `Expansion.ExpandLongName` | src/execute.c:110 | Only the first ARGLEN - 1 characters of a long name are looked up. |
| `History.LastN` | src/execute.c:419-428 | The result is a suffix of the sequence, of length n, or the whole sequence when it is shorter. |
| `History.Ignored` | src/execute.c:411-417 | Defines the lines add_to_history skips. A line that is not skipped exists, is non-empty, does not start with `!`, and differs from the last entry. |
| `History.AddedHistory` | src/execute.c:410-428 | Defines the history after add_to_history. It is unchanged exactly when the line is ignored. |
| `History.AddedIsRecent` | src/execute.c:419-428 | An accepted line is appended, with the oldest entry dropped at capacity: the history is the last HISTORY_SIZE accepted lines. The count grows by one until it sticks at HISTORY_SIZE, and the new line is last. |
| `History.AddedKeepsWellKept` | src/execute.c:410-428 | The history stays within capacity, holds no empty line or line starting with `!`, and never holds the same line twice in a row. |
| `History.AppendWellKept` | src/execute.c:419-421 | Appending an accepted line keeps the history well kept. |
| `History.TailWellKept` | src/execute.c:423-426 | Dropping the oldest entry keeps the history well kept. |
| `History.RepeatIgnored` | src/execute.c:415-417 | Entering the same line twice in a row records it once. |
| `History.CommandHistory.constructor` | src/execute.c:4-5 | The history starts empty, which satisfies the class invariant. |
| `History.CommandHistory.Add` | src/execute.c:410-428 | The history becomes `AddedHistory`: unchanged for NULL, empty, `!`-prefixed or repeated lines; appended below capacity; at capacity shifted down by one with the line last. The class invariant (no empty or `!` entry, no line twice in a row) is kept. |
| `History.CommandHistory.FromHistory` | src/execute.c:442-448 | Returns n - 1 iff 1 <= n <= history_count, otherwise -1. |
| `Jobs.Words` | src/execute.c:390-394 | Splitting at spaces always gives at least one word. |
| `Jobs.Join` | src/execute.c:390-394 | Defines the strcat join with single spaces. The first word starts the result. |
| `Jobs.Label` | src/execute.c:390-394 | Defines the display string as the first ten tokens joined. It starts with the command name. |
| `Jobs.JoinCons` | src/execute.c:390-394 | Joining with spaces puts the first word, a space, then the rest joined. |
| `Jobs.WordsJoin` | src/execute.c:390-394 | When no token holds a space, splitting the display string at its spaces gives the tokens back. |
| `Jobs.WordsCons` | src/execute.c:391 | A space-free word, a space and more text split off the word first. |
| `Jobs.JoinBound` | src/execute.c:390-394 | n words of at most m characters join to at most n * (m + 1) characters. |
| `Jobs.LabelFits` | src/execute.c:390-394 | Tokens shorter than ARGLEN always give a display string that fits the MAX_LEN buffer. |
| `Jobs.JobLabel` | src/execute.c:390-394 | The loop builds the first ten tokens joined by single spaces. |
| `Jobs.IndexOfPid` | src/execute.c:186-187 | Finds the first entry with this pid, or the count. |
| `Jobs.Registered` | src/execute.c:386-398 | Defines the table after a background command. The old jobs stay as a prefix, at most one job is added, and the table never exceeds MAX_JOBS. |
| `Jobs.RemovePid` | src/execute.c:186-200 | Defines the table after one child is reaped. It loses at most one job and gains none it did not have. |
| `Jobs.RemoveAll` | src/execute.c:185-202 | Defines the table after a series of reaped children. It never grows and keeps only jobs it had. |
| `Jobs.IndexOfPidIs` | src/execute.c:186-187 | The first match is the entry with no match before it. |
| `Jobs.HasPidIndex` | src/execute.c:186-187 | A pid is in the table iff its first position is. |
| `Jobs.DropShape` | src/execute.c:192-195 | Removing slot i keeps the entries before it and moves later ones down by one. |
| `Jobs.RemoveShifts` | src/execute.c:186-200 | The table shrinks by one iff the pid was in it, and is unchanged iff it was not. Earlier entries keep their places, and later ones move down by one in order. |
| `Jobs.RemoveGone` | src/execute.c:186-200 | With distinct pids, the reaped child's entry is gone and the pids stay distinct. |
| `Jobs.RegisterThenRemove` | src/execute.c:386-402 | Registering a new pid and then reaping it gives back the original table. |
| `Jobs.Columns` | src/execute.c:8-9 | Job i pairs background_jobs[i] with job_commands[i]. |
| `Jobs.JobTable.constructor` | src/execute.c:8-10 | The job table starts empty. |
| `Jobs.JobTable.Register` | src/execute.c:386-402 | Appends (pid, display string) iff job_count < MAX_JOBS, and reports whether it did. A full table is unchanged. |
| `Jobs.JobTable.RemoveAt` | src/execute.c:192-198 | Removes entry i, keeping the order of the others, and clears the vacated slot. |
| `Jobs.JobTable.ShiftDown` | src/execute.c:192-195 | Entries before i stay, the entries after i move down one slot, and the last slot keeps its contents. |
| `Jobs.JobTable.RemoveJob` | src/execute.c:186-200 | Removes the first entry with the pid, if any, and reports whether the pid was there. An unknown pid leaves the table unchanged, and 0 <= job_count <= MAX_JOBS is kept. |
| `Jobs.JobTable.Cleanup` | src/execute.c:181-203 | Removes each reported child's entry, in the order waitpid reports them. |

## Left out

- Process creation and descriptor plumbing are OS effects with no state here to model. This covers `fork`, `execvp`, `waitpid`, `pipe`, `dup2`, `open` and `close`. Concretely, it leaves out `handle_redirection`, the part of `handle_pipe` after the split (src/execute.c:319-358), and `execute` apart from the job append (src/execute.c:361-407).
- Which background children have ended is asked of `waitpid(-1, ..., WNOHANG)` (src/execute.c:185). It is a parameter of `Jobs.JobTable.Cleanup` instead: the sequence of reaped pids.
- `getenv` is a foreign call. It is a `map<string, string>` parameter of the expansion.
- The execution half of `handle_chain_commands` (src/shell.c:122-136) tokenizes and runs each command. It is left out because running a command is not modelled; the commands it would run are the result of `Chaining.ChainCommands`. The C function cuts the line in place with `strtok_r`. The model returns the collected commands as values.
- Reading lines with readline (`read_cmd`), the readline history calls in `add_to_history`, and all of `src/main.c` are terminal I/O of a foreign library.
- The printing built-ins (`print_jobs`, `print_history`, `print_variables`, `debug_print_variables`, `help`), the messages printed by the modelled functions, `cd` and `exit` are output or process effects. They change none of the modelled state.
- Memory ownership (`malloc`, `free`, `strdup`) has value semantics here. The slots that `parse_redirection` sets to NULL without freeing them leak, and that leak is not modelled. The branch of `handle_variables` for a failed allocation is not modelled either.
- The `if`/`then`/`else` block handlers are only declared in `include/shell.h`; their implementation is not part of this model.
- C strings are their characters before the terminator, and each Dafny `char` stands for one byte. The ARGLEN bound in `Lexer.TokensFit` and the MAX_LEN bound in `Jobs.LabelFits` and `Jobs.JobLabel` are therefore byte counts, as in C; a multi-byte character counts as several. A NUL byte inside a line is not modelled.
- Lexer.Tokenize: requires every produced token to be shorter than ARGLEN (`TokensFit`). Otherwise `strncpy` at src/shell.c:80 writes past the 64-byte token buffer, which is undefined behaviour.
- ArgList.HandleBackground: requires a non-empty list, because `strcmp(arglist[0], "&")` on an empty list dereferences NULL.
- Jobs.JobTable.Register: requires the display string to be shorter than MAX_LEN, or `strcat` overruns `cmd_buf`. This rules out an overflow the C code really reaches. `Jobs.LabelFits` shows the bound holds for lists straight from the lexer. But `execute` expands variables first (src/execute.c:363), and an environment value can be any length. So `echo $LONGVAR &`, with a value over 1 KB, overruns the buffer in C, and the model does not describe that run. It also requires the argument list to be a different array from the table's command column.
- Variables.VarStore.constructor: MAX_VARS is undefined in `include/shell.h`, so the capacity is a positive parameter.
