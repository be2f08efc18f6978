/** The background-job table of src/execute.c: background_jobs and
    job_commands with job_count entries in use. The parent of a background
    command appends an entry (execute, source lines 386-402) and
    cleanup_background_jobs removes the entry of every child that has ended
    (source lines 186-200). Which children have ended (waitpid with WNOHANG)
    is a parameter of the model. */
module Jobs {
  import opened ShellBase
  import opened ArgList

  // ---------------------------------------------------------------------
  // The command string a job is listed with

  /** Words joined by single spaces, built left to right as strcat does. */
  function Join(ws: seq<string>): (r: string)
    ensures ws != [] ==> ws[0] <= r
  {
    if ws == [] then []
    else if |ws| == 1 then ws[0]
    else Join(ws[..|ws| - 1]) + [' '] + ws[|ws| - 1]
  }

  /** The display string of a job: its first ten tokens joined by spaces. */
  function Label(args: seq<string>): (r: string)
    ensures args != [] ==> args[0] <= r
  {
    Join(Take(args, 10))
  }

  /** The text split at every space. */
  function Words(s: string): (r: seq<string>)
    ensures r != []
    decreases |s|
  {
    var k := IndexOfChar(s, ' ');
    if k == |s| then [s] else [s[..k]] + Words(s[k + 1..])
  }

  /** Joining in front: the first word, a space, and the rest joined. */
  lemma {:induction false} JoinCons(ws: seq<string>)
    requires |ws| > 1
    ensures Join(ws) == ws[0] + [' '] + Join(ws[1..])
    decreases |ws|
  {
    var n := |ws|;
    if n > 2 {
      JoinCons(ws[..n - 1]);
      assert ws[..n - 1][1..] == ws[1..][..n - 2];
      assert ws[..n - 1][0] == ws[0];
    } else {
      assert ws[..1] == [ws[0]] && ws[1..] == [ws[1]];
    }
  }

  /** Splitting the display string at its spaces gives back the words, as
      long as no word holds a space itself (quoted tokens can). */
  lemma {:induction false} WordsJoin(ws: seq<string>)
    requires ws != [] && forall w <- ws :: ' ' !in w
    ensures Words(Join(ws)) == ws
    decreases |ws|
  {
    assert ws[0] in ws;
    if |ws| == 1 {
      IndexOfCharIs(ws[0], ' ', |ws[0]|);
    } else {
      JoinCons(ws);
      WordsCons(ws[0], Join(ws[1..]));
      WordsJoin(ws[1..]);
      assert ws == [ws[0]] + ws[1..];
    }
  }

  /** A word without a space, a space, and more text: the word is split off. */
  lemma WordsCons(w: string, rest: string)
    requires ' ' !in w
    ensures Words(w + [' '] + rest) == [w] + Words(rest)
  {
    var s := w + [' '] + rest;
    assert forall j :: 0 <= j < |w| ==> s[j] == w[j];
    IndexOfCharIs(s, ' ', |w|);
    assert s[..|w|] == w;
    assert s[|w| + 1..] == rest;
  }

  /** Every word at most m characters long: the joined string of n words is
      at most n * (m + 1) characters long. */
  lemma {:induction false} JoinBound(ws: seq<string>, m: nat)
    requires forall i :: 0 <= i < |ws| ==> |ws[i]| <= m
    ensures |Join(ws)| <= |ws| * (m + 1)
    decreases |ws|
  {
    var n := |ws|;
    if n > 1 {
      JoinBound(ws[..n - 1], m);
      assert |Join(ws)| == |Join(ws[..n - 1])| + 1 + |ws[n - 1]|;
      assert (n - 1) * (m + 1) + (m + 1) == n * (m + 1);
    }
  }

  /** Tokens as the tokenizer leaves them (shorter than ARGLEN) always give a
      display string that fits the MAX_LEN buffer it is built in. */
  lemma LabelFits(args: seq<string>)
    requires forall t <- args :: |t| < ARGLEN
    ensures |Label(args)| < MAX_LEN
  {
    var ws := Take(args, 10);
    assert forall i :: 0 <= i < |ws| ==> ws[i] == args[i] && args[i] in args;
    JoinBound(ws, ARGLEN - 1);
  }

  /** The loop of execute that builds cmd_buf (source lines 390-394). The
      string must fit the buffer, or strcat would write past its end. */
  method JobLabel(a: array<Option<string>>) returns (command: string)
    requires |Args(a[..])| < a.Length && |Label(Args(a[..]))| < MAX_LEN
    ensures command == Label(Args(a[..]))
  {
    ghost var args := Args(a[..]);
    command := [];
    var i := 0;
    while a[i] != None && i < 10
      invariant i <= |args| && i <= 10 && command == Join(args[..i])
      decreases 10 - i
    {
      assert args[..i + 1][..i] == args[..i];
      if i > 0 {
        command := command + [' '];
      }
      command := command + a[i].value;
      i := i + 1;
    }
    assert args[..i] == Take(args, 10);
  }

  // ---------------------------------------------------------------------
  // The table as a sequence of jobs

  datatype Job = Job(pid: int, command: string)

  /** The jobs in the table after a background command with this pid and
      display string: appended when there is room, otherwise the table is
      full and nothing is recorded. */
  function Registered(jobs: seq<Job>, pid: int, command: string): (r: seq<Job>)
    ensures jobs <= r && |r| <= |jobs| + 1
    ensures |jobs| <= MAX_JOBS ==> |r| <= MAX_JOBS
  {
    if |jobs| < MAX_JOBS then jobs + [Job(pid, command)] else jobs
  }

  /** Position of the first job with this pid, or |jobs| when there is none. */
  function IndexOfPid(jobs: seq<Job>, pid: int): (i: nat)
    ensures i <= |jobs|
    ensures forall j :: 0 <= j < i ==> jobs[j].pid != pid
    ensures i < |jobs| ==> jobs[i].pid == pid
  {
    if jobs == [] || jobs[0].pid == pid then 0 else 1 + IndexOfPid(jobs[1..], pid)
  }

  lemma {:induction false} IndexOfPidIs(jobs: seq<Job>, pid: int, i: nat)
    requires i <= |jobs| && (i < |jobs| ==> jobs[i].pid == pid)
    requires forall j :: 0 <= j < i ==> jobs[j].pid != pid
    ensures IndexOfPid(jobs, pid) == i
  {
    if i > 0 {
      IndexOfPidIs(jobs[1..], pid, i - 1);
    }
  }

  /** The jobs after the child pid has ended: its first entry is removed and
      the later entries move down by one; an unknown pid changes nothing. */
  function RemovePid(jobs: seq<Job>, pid: int): (r: seq<Job>)
    ensures |jobs| - 1 <= |r| <= |jobs|
    ensures forall k :: 0 <= k < |r| ==> r[k] in jobs
  {
    var i := IndexOfPid(jobs, pid);
    if i < |jobs| then jobs[..i] + jobs[i + 1..] else jobs
  }

  /** The jobs after each of the reaped children, in the order waitpid
      reports them, has been removed. */
  function RemoveAll(jobs: seq<Job>, reaped: seq<int>): (r: seq<Job>)
    ensures |r| <= |jobs|
    ensures forall k :: 0 <= k < |r| ==> r[k] in jobs
    decreases |reaped|
  {
    if reaped == [] then jobs else RemoveAll(RemovePid(jobs, reaped[0]), reaped[1..])
  }

  predicate HasPid(jobs: seq<Job>, pid: int) {
    exists j :: 0 <= j < |jobs| && jobs[j].pid == pid
  }

  predicate DistinctPids(jobs: seq<Job>) {
    forall i, j :: 0 <= i < j < |jobs| ==> jobs[i].pid != jobs[j].pid
  }

  /** The pid is in the table exactly when its first position is. */
  lemma HasPidIndex(jobs: seq<Job>, pid: int)
    ensures HasPid(jobs, pid) <==> IndexOfPid(jobs, pid) < |jobs|
  {
    if HasPid(jobs, pid) {
      var j :| 0 <= j < |jobs| && jobs[j].pid == pid;
    }
  }

  /** Dropping element i: the ones before it stay, the later ones move down. */
  lemma DropShape<T>(s: seq<T>, i: nat)
    requires i < |s|
    ensures var r := s[..i] + s[i + 1..];
      |r| == |s| - 1 && (forall k :: 0 <= k < i ==> r[k] == s[k]) &&
      (forall k :: i <= k < |r| ==> r[k] == s[k + 1])
  {
  }

  /** Removal shifts: the jobs before the ended one keep their numbers, every
      later job moves down by one, and the table shrinks by one exactly when
      the pid was in it. */
  lemma RemoveShifts(jobs: seq<Job>, pid: int)
    ensures var r := RemovePid(jobs, pid); var i := IndexOfPid(jobs, pid);
      (HasPid(jobs, pid) <==> |r| == |jobs| - 1) &&
      (!HasPid(jobs, pid) <==> r == jobs) &&
      (forall k :: 0 <= k < i && k < |r| ==> r[k] == jobs[k]) &&
      (forall k :: i <= k < |r| ==> r[k] == jobs[k + 1])
  {
    var i := IndexOfPid(jobs, pid);
    HasPidIndex(jobs, pid);
    if i < |jobs| {
      DropShape(jobs, i);
    }
  }

  /** With distinct pids, the ended child's entry is gone afterwards and the
      pids stay distinct. */
  lemma RemoveGone(jobs: seq<Job>, pid: int)
    requires DistinctPids(jobs)
    ensures !HasPid(RemovePid(jobs, pid), pid) && DistinctPids(RemovePid(jobs, pid))
  {
    var r := RemovePid(jobs, pid);
    var i := IndexOfPid(jobs, pid);
    RemoveShifts(jobs, pid);
    forall k | 0 <= k < |r| ensures r[k].pid != pid {
      if k >= i {
        assert r[k] == jobs[k + 1] && jobs[i].pid == pid;
      }
    }
    if i < |jobs| {
      forall a, b | 0 <= a < b < |r| ensures r[a].pid != r[b].pid {
        var a' := if a < i then a else a + 1;
        var b' := if b < i then b else b + 1;
        assert r[a] == jobs[a'] && r[b] == jobs[b'];
      }
    }
  }

  /** Registering a child with a fresh pid and then reaping it gives back
      the table it started from. */
  lemma RegisterThenRemove(jobs: seq<Job>, pid: int, command: string)
    requires !HasPid(jobs, pid)
    ensures RemovePid(Registered(jobs, pid, command), pid) == jobs
  {
    var r := Registered(jobs, pid, command);
    if |jobs| < MAX_JOBS {
      IndexOfPidIs(r, pid, |jobs|);
      assert r[..|jobs|] == jobs;
    } else {
      IndexOfPidIs(r, pid, |jobs|);
    }
  }

  /** Jobs paired up from the pid and command columns. */
  function Columns(ps: seq<int>, cs: seq<Option<string>>): (r: seq<Job>)
    requires |ps| == |cs| && forall i :: 0 <= i < |cs| ==> cs[i].Some?
    ensures |r| == |ps| && forall i :: 0 <= i < |r| ==> r[i] == Job(ps[i], cs[i].value)
  {
    seq(|ps|, i requires 0 <= i < |ps| => Job(ps[i], cs[i].value))
  }

  /** background_jobs and job_commands with job_count entries in use. */
  class JobTable {
    const pids: array<int>
    const cmds: array<Option<string>>
    var count: nat

    /** The table keeps at most MAX_JOBS entries, every entry in use has a
      command, and every slot past the last entry is cleared (pid 0, NULL
      command). */
    predicate Valid()
      reads this, pids, cmds
    {
      pids.Length == MAX_JOBS && cmds.Length == MAX_JOBS && count <= MAX_JOBS &&
      (forall j :: 0 <= j < count ==> cmds[j] != None) &&
      (forall j :: count <= j < MAX_JOBS ==> pids[j] == 0 && cmds[j] == None)
    }

    /** The jobs in table order; job i is listed with number i + 1. */
    function Jobs(): seq<Job>
      reads this, pids, cmds
      requires Valid()
    {
      Columns(pids[..count], cmds[..count])
    }

    constructor ()
      ensures Valid() && Jobs() == []
    {
      pids := new int[MAX_JOBS](_ => 0);
      cmds := new Option<string>[MAX_JOBS](_ => None);
      count := 0;
    }

    /** The parent's side of a background command (source lines 386-402):
      record the child and its display string when the table has room. */
    method Register(pid: int, a: array<Option<string>>) returns (registered: bool)
      requires Valid() && a != cmds && |Args(a[..])| < a.Length && |Label(Args(a[..]))| < MAX_LEN
      modifies this, pids, cmds
      ensures Valid() && registered == (old(count) < MAX_JOBS)
      ensures Jobs() == Registered(old(Jobs()), pid, Label(Args(a[..])))
    {
      if count < MAX_JOBS {
        ghost var js := Jobs();
        pids[count] := pid;
        var command := JobLabel(a);
        cmds[count] := Some(command);
        count := count + 1;
        assert Jobs() == js + [Job(pid, command)];
        return true;
      }
      return false;
    }

    /** Shift the entries after slot i down by one, drop the last entry and
      clear its slot (source lines 192-198). */
    method RemoveAt(i: nat)
      requires Valid() && i < count
      modifies this, pids, cmds
      ensures Valid() && Jobs() == old(Jobs()[..i] + Jobs()[i + 1..])
    {
      ghost var js := Jobs();
      ShiftDown(i);
      count := count - 1;
      pids[count] := 0;
      cmds[count] := None;
      DropShape(js, i);
      assert Jobs() == js[..i] + js[i + 1..];
    }

    /** The shifting loop: every entry after slot i moves down one slot. */
    method ShiftDown(i: nat)
      requires Valid() && i < count
      modifies pids, cmds
      ensures forall k :: 0 <= k < i ==> pids[k] == old(pids[k]) && cmds[k] == old(cmds[k])
      ensures forall k :: i <= k < count - 1 ==> pids[k] == old(pids[k + 1]) && cmds[k] == old(cmds[k + 1])
      ensures forall k :: count - 1 <= k < MAX_JOBS ==> pids[k] == old(pids[k]) && cmds[k] == old(cmds[k])
    {
      var j := i;
      while j < count - 1
        invariant i <= j <= count - 1
        invariant forall k :: 0 <= k < i ==> pids[k] == old(pids[k]) && cmds[k] == old(cmds[k])
        invariant forall k :: i <= k < j ==> pids[k] == old(pids[k + 1]) && cmds[k] == old(cmds[k + 1])
        invariant forall k :: j <= k < MAX_JOBS ==> pids[k] == old(pids[k]) && cmds[k] == old(cmds[k])
      {
        pids[j] := pids[j + 1];
        cmds[j] := cmds[j + 1];
        j := j + 1;
      }
    }

    /** The body of cleanup_background_jobs for one ended child: remove the
      first entry with its pid, if there is one. */
    method RemoveJob(pid: int) returns (removed: bool)
      requires Valid()
      modifies this, pids, cmds
      ensures Valid() && removed == HasPid(old(Jobs()), pid)
      ensures Jobs() == RemovePid(old(Jobs()), pid)
    {
      ghost var js := Jobs();
      var i := 0;
      while i < count
        invariant i <= count && forall k :: 0 <= k < i ==> js[k].pid != pid
      {
        if pids[i] == pid {
          IndexOfPidIs(js, pid, i);
          RemoveAt(i);
          return true;
        }
        i := i + 1;
      }
      IndexOfPidIs(js, pid, |js|);
      return false;
    }

    /** cleanup_background_jobs, given the pids that waitpid reports, in
      order: each reported child's entry is removed. */
    method Cleanup(reaped: seq<int>)
      requires Valid()
      modifies this, pids, cmds
      ensures Valid() && Jobs() == RemoveAll(old(Jobs()), reaped)
    {
      var k := 0;
      while k < |reaped|
        invariant k <= |reaped| && Valid()
        invariant RemoveAll(Jobs(), reaped[k..]) == RemoveAll(old(Jobs()), reaped)
      {
        assert reaped[k..][1..] == reaped[k + 1..];
        var _ := RemoveJob(reaped[k]);
        k := k + 1;
      }
    }
  }
}
