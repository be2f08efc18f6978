/** The command history of src/execute.c: a global array of HISTORY_SIZE
    lines with history_count of them in use, kept by add_to_history and read
    by execute_from_history. The readline history that add_to_history also
    feeds is not part of this model. */
module History {
  import opened ShellBase

  /** add_to_history leaves the history alone for a NULL or empty line, a
      line starting with '!', and a repeat of the most recent entry. */
  predicate Ignored(h: seq<string>, line: Option<string>)
    ensures !Ignored(h, line) ==>
      line.Some? && line.value != [] && line.value[0] != '!' && (h != [] ==> h[|h| - 1] != line.value)
  {
    line == None || line.value == [] || line.value[0] == '!' ||
    (h != [] && h[|h| - 1] == line.value)
  }

  /** The last n elements of s, or all of s when it is shorter. */
  function LastN<T>(s: seq<T>, n: nat): (r: seq<T>)
    ensures |r| == if |s| < n then |s| else n
    ensures r == s[|s| - |r|..]
  {
    if |s| <= n then s else s[|s| - n..]
  }

  /** The history after add_to_history: an accepted line is appended, and at
      capacity the oldest entry is dropped to make room for it. */
  function AddedHistory(h: seq<string>, line: Option<string>): (r: seq<string>)
    ensures r == h <==> Ignored(h, line)
  {
    if Ignored(h, line) then h
    else if |h| < HISTORY_SIZE then h + [line.value]
    else h[1..] + [line.value]
  }

  /** The history holds the most recent HISTORY_SIZE accepted lines: adding a
      line keeps the last HISTORY_SIZE entries of the old history followed by
      the line, so the count grows by one until it sticks at HISTORY_SIZE. */
  lemma AddedIsRecent(h: seq<string>, line: Option<string>)
    requires |h| <= HISTORY_SIZE && !Ignored(h, line)
    ensures AddedHistory(h, line) == LastN(h + [line.value], HISTORY_SIZE)
    ensures |AddedHistory(h, line)| == if |h| < HISTORY_SIZE then |h| + 1 else HISTORY_SIZE
    ensures AddedHistory(h, line)[|AddedHistory(h, line)| - 1] == line.value
  {
    if |h| == HISTORY_SIZE {
      assert (h + [line.value])[1..] == h[1..] + [line.value];
    }
  }

  /** Entries are never empty and never start with '!', and no entry repeats
      the one right before it. */
  predicate WellKept(h: seq<string>) {
    (forall i :: 0 <= i < |h| ==> h[i] != [] && h[i][0] != '!') &&
    (forall i :: 0 <= i < |h| - 1 ==> h[i] != h[i + 1])
  }

  /** add_to_history keeps the history well kept and within its capacity. */
  lemma AddedKeepsWellKept(h: seq<string>, line: Option<string>)
    requires WellKept(h) && |h| <= HISTORY_SIZE
    ensures WellKept(AddedHistory(h, line)) && |AddedHistory(h, line)| <= HISTORY_SIZE
  {
    if !Ignored(h, line) {
      if |h| < HISTORY_SIZE {
        AppendWellKept(h, line.value);
      } else {
        TailWellKept(h);
        AppendWellKept(h[1..], line.value);
      }
    }
  }

  lemma AppendWellKept(h: seq<string>, x: string)
    requires WellKept(h) && x != [] && x[0] != '!' && (h != [] ==> h[|h| - 1] != x)
    ensures WellKept(h + [x])
  {
  }

  lemma TailWellKept(h: seq<string>)
    requires WellKept(h) && h != []
    ensures WellKept(h[1..])
  {
  }

  /** Entering the same line twice in a row records it once. */
  lemma RepeatIgnored(h: seq<string>, x: string)
    requires |h| <= HISTORY_SIZE && x != [] && x[0] != '!'
    ensures AddedHistory(AddedHistory(h, Some(x)), Some(x)) == AddedHistory(h, Some(x))
  {
    if !Ignored(h, Some(x)) {
      AddedIsRecent(h, Some(x));
    }
  }

  class CommandHistory {
    const entries: array<string>
    var count: nat

    /** At most HISTORY_SIZE lines are in use, and they are well kept: none
      is empty or starts with '!', and none repeats the one before it. */
    predicate Valid()
      reads this, entries
    {
      entries.Length == HISTORY_SIZE && count <= HISTORY_SIZE && WellKept(entries[..count])
    }

    /** The lines in the history, oldest first. */
    function Lines(): seq<string>
      reads this, entries
      requires Valid()
    {
      entries[..count]
    }

    constructor ()
      ensures Valid() && Lines() == []
    {
      entries := new string[HISTORY_SIZE](_ => "");
      count := 0;
    }

    /** add_to_history: ignore what Ignored names; below capacity store the
      line in the next slot; at capacity shift every entry down by one
      (dropping entry 0) and store the line in the last slot. */
    method Add(line: Option<string>)
      requires Valid()
      modifies this, entries
      ensures Valid() && Lines() == AddedHistory(old(Lines()), line)
    {
      ghost var added := AddedHistory(Lines(), line);
      AddedKeepsWellKept(Lines(), line);
      if line == None || |line.value| == 0 || line.value[0] == '!' {
        return;
      }
      if count > 0 && entries[count - 1] == line.value {
        return;
      }
      if count < HISTORY_SIZE {
        entries[count] := line.value;
        count := count + 1;
        assert entries[..count] == added;
      } else {
        ghost var h := entries[..];
        var i := 1;
        while i < HISTORY_SIZE
          invariant 1 <= i <= HISTORY_SIZE && count == HISTORY_SIZE
          invariant forall j :: 0 <= j < i - 1 ==> entries[j] == h[j + 1]
          invariant forall j :: i - 1 <= j < HISTORY_SIZE ==> entries[j] == h[j]
        {
          entries[i - 1] := entries[i];
          i := i + 1;
        }
        entries[HISTORY_SIZE - 1] := line.value;
        assert entries[..] == h[1..] + [line.value] == added;
      }
    }

    /** execute_from_history: the index of the entry numbered n (entries are
      numbered from 1, as the history is listed), or -1 when there is none. */
    method FromHistory(n: int) returns (r: int)
      requires Valid()
      ensures r == -1 <==> !(1 <= n <= count)
      ensures r != -1 ==> 0 <= r < |Lines()| && r + 1 == n
    {
      if n < 1 || n > count {
        return -1;
      }
      return n - 1;
    }
  }
}
