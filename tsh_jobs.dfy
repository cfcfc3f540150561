/** The job list of the tiny shell (Labs/Lab06-shell/tsh.c): a fixed table
    of `MAXJOBS` job records and the next job ID to hand out.  A slot whose
    pid is 0 is free. */
module ShellJobs {

  const MAXJOBS: int := 16
  /** Size of the `cmdline` buffer of a job record. */
  const MAXLINE: int := 1024

  /** Job states. */
  const UNDEF: int := 0
  const FG: int := 1
  const BG: int := 2
  const ST: int := 3

  /** A `struct job_t` record; `cmdline` is the contents of its buffer. */
  datatype Job = Job(pid: int, jid: int, state: int, cmdline: string)

  /** What `clearjob` leaves in a record. */
  const CLEARED: Job := Job(0, 0, UNDEF, "")

  /** The largest job ID in `s`, or 0 when there is none above 0. */
  function MaxJidOf(s: seq<Job>): (m: int)
    ensures m >= 0
    ensures forall k :: 0 <= k < |s| ==> s[k].jid <= m
    ensures m > 0 ==> exists k :: 0 <= k < |s| && s[k].jid == m
  {
    if s == [] then 0
    else
      var rest := MaxJidOf(s[..|s| - 1]);
      if s[|s| - 1].jid > rest then s[|s| - 1].jid else rest
  }

  /** The field a lookup compares: `getjobpid` looks at the pid,
      `getjobjid` at the job ID. */
  datatype Field = ByPid | ByJid

  function FieldOf(f: Field, job: Job): int {
    match f
    case ByPid => job.pid
    case ByJid => job.jid
  }

  /** The first slot whose field `f` is `v`, or `|s|`. */
  function FindBy(f: Field, s: seq<Job>, v: int): (k: nat)
    ensures k <= |s|
    ensures forall m :: 0 <= m < k ==> FieldOf(f, s[m]) != v
    ensures k < |s| ==> FieldOf(f, s[k]) == v
  {
    if s == [] then 0 else if FieldOf(f, s[0]) == v then 0 else 1 + FindBy(f, s[1..], v)
  }

  /** The job ID handed out after `j`: `nextjid++`, back to 1 past `MAXJOBS`. */
  function NextJid(j: int): (r: int)
    ensures j >= 0 ==> 1 <= r <= MAXJOBS
    ensures j + 1 <= MAXJOBS ==> r == j + 1
    ensures j + 1 > MAXJOBS ==> r == 1
  {
    if j + 1 > MAXJOBS then 1 else j + 1
  }

  /** A job put into the first free slot, with a pid not yet in the
      table, is the one found by that pid. */
  lemma {:induction false} AddedJobFound(s: seq<Job>, job: Job)
    requires job.pid >= 1 && FindBy(ByPid, s, job.pid) == |s| && FindBy(ByPid, s, 0) < |s|
    ensures FindBy(ByPid, s[FindBy(ByPid, s, 0) := job], job.pid) == FindBy(ByPid, s, 0)
  {
    var k := FindBy(ByPid, s, 0);
    var t := s[k := job];
    assert forall m :: 0 <= m < k ==> t[m].pid != job.pid;
    FindPidAt(t, job.pid, k);
  }

  /** Once the only job with `pid` is cleared, no job has that pid. */
  lemma {:induction false} DeletedJobGone(s: seq<Job>, pid: int)
    requires pid >= 1 && FindBy(ByPid, s, pid) < |s|
    requires forall m :: FindBy(ByPid, s, pid) < m < |s| ==> s[m].pid != pid
    ensures FindBy(ByPid, s[FindBy(ByPid, s, pid) := CLEARED], pid) == |s|
  {
    var t := s[FindBy(ByPid, s, pid) := CLEARED];
    assert forall m :: 0 <= m < |t| ==> t[m].pid != pid;
    FindPidNone(t, pid);
  }

  lemma {:induction false} FindPidAt(s: seq<Job>, pid: int, k: nat)
    requires k < |s| && s[k].pid == pid && forall m :: 0 <= m < k ==> s[m].pid != pid
    ensures FindBy(ByPid, s, pid) == k
  {
  }

  lemma {:induction false} FindPidNone(s: seq<Job>, pid: int)
    requires forall m :: 0 <= m < |s| ==> s[m].pid != pid
    ensures FindBy(ByPid, s, pid) == |s|
  {
  }

  /** The global `jobs` table and `nextjid`. */
  class JobList {
    const jobs: array<Job>
    var nextjid: int

    /** The table has `MAXJOBS` slots, `nextjid` is positive, and a slot is
        free (pid 0, job ID 0, state `UNDEF`) or holds a job with positive
        pid and job ID. */
    ghost predicate Valid()
      reads this, jobs
    {
      && jobs.Length == MAXJOBS && nextjid >= 1
      && forall k :: 0 <= k < MAXJOBS ==>
           (jobs[k].pid == 0 && jobs[k].jid == 0 && jobs[k].state == UNDEF)
           || (jobs[k].pid >= 1 && jobs[k].jid >= 1)
    }

    /** The zero-filled global table, with `nextjid = 1`. */
    constructor ()
      ensures Valid() && fresh(jobs) && nextjid == 1
      ensures forall k :: 0 <= k < MAXJOBS ==> jobs[k] == CLEARED
    {
      jobs := new Job[MAXJOBS](_ => CLEARED);
      nextjid := 1;
    }

    /** `clearjob(&jobs[k])`. */
    method ClearJob(k: int)
      requires 0 <= k < jobs.Length
      modifies jobs
      ensures jobs[..] == old(jobs[..])[k := CLEARED]
    {
      jobs[k] := CLEARED;
    }

    /** `initjobs`: clear every slot; `nextjid` is left alone. */
    method InitJobs()
      requires Valid()
      modifies jobs
      ensures Valid()
      ensures forall k :: 0 <= k < MAXJOBS ==> jobs[k] == CLEARED
    {
      var i := 0;
      while i < MAXJOBS
        invariant 0 <= i <= MAXJOBS
        invariant forall k :: 0 <= k < i ==> jobs[k] == CLEARED
        invariant Valid()
      {
        ClearJob(i);
        i := i + 1;
      }
    }

    /** `maxjid`: the largest job ID in the table, 0 when it is empty. */
    method MaxJid() returns (m: int)
      requires Valid()
      ensures m == MaxJidOf(jobs[..])
      ensures m >= 0 && forall k :: 0 <= k < MAXJOBS ==> jobs[k].jid <= m
      ensures m > 0 ==> exists k :: 0 <= k < MAXJOBS && jobs[k].jid == m
      ensures m == 0 <==> forall k :: 0 <= k < MAXJOBS ==> jobs[k].pid == 0
    {
      m := 0;
      var i := 0;
      while i < MAXJOBS
        invariant 0 <= i <= MAXJOBS
        invariant m == MaxJidOf(jobs[..i])
      {
        assert jobs[..i + 1][..i] == jobs[..i];
        if jobs[i].jid > m {
          m := jobs[i].jid;
        }
        i := i + 1;
      }
      assert jobs[..i] == jobs[..];
      assert forall k :: 0 <= k < MAXJOBS ==> jobs[k] == jobs[..][k];
    }

    /** `addjob`: a pid below 1 is refused; otherwise the first free slot
        gets the job with job ID `nextjid`, which then advances (wrapping to 1
        past `MAXJOBS`).  Returns 0 with the table unchanged when every slot
        is taken. */
    method AddJob(pid: int, state: int, cmdline: string) returns (r: int)
      requires Valid() && |cmdline| < MAXLINE
      modifies this, jobs
      ensures Valid()
      ensures r == 1 <==> pid >= 1 && FindBy(ByPid, old(jobs[..]), 0) < MAXJOBS
      ensures r == 0 ==> jobs[..] == old(jobs[..]) && nextjid == old(nextjid)
      ensures r == 1 ==>
        && jobs[..] == old(jobs[..])[FindBy(ByPid, old(jobs[..]), 0) := Job(pid, old(nextjid), state, cmdline)]
        && nextjid == NextJid(old(nextjid))
    {
      if pid < 1 {
        return 0;
      }
      var i := 0;
      while i < MAXJOBS
        invariant 0 <= i <= MAXJOBS
        invariant forall m :: 0 <= m < i ==> jobs[m].pid != 0
      {
        if jobs[i].pid == 0 {
          assert FindBy(ByPid, jobs[..], 0) == i by {
            assert forall m :: 0 <= m < i ==> jobs[..][m].pid != 0;
          }
          jobs[i] := Job(pid, nextjid, state, cmdline);
          nextjid := NextJid(nextjid);
          return 1;
        }
        i := i + 1;
      }
      assert FindBy(ByPid, jobs[..], 0) == MAXJOBS by {
        assert forall m :: 0 <= m < MAXJOBS ==> jobs[..][m].pid != 0;
      }
      return 0;
    }

    /** `deletejob`: clear the first slot holding `pid` and set `nextjid`
        to one past the largest remaining job ID.  Returns 0 with nothing
        changed for a pid below 1 or one not in the table. */
    method DeleteJob(pid: int) returns (r: int)
      requires Valid()
      modifies this, jobs
      ensures Valid()
      ensures r == 1 <==> pid >= 1 && FindBy(ByPid, old(jobs[..]), pid) < MAXJOBS
      ensures r == 0 ==> jobs[..] == old(jobs[..]) && nextjid == old(nextjid)
      ensures r == 1 ==>
        && jobs[..] == old(jobs[..])[FindBy(ByPid, old(jobs[..]), pid) := CLEARED]
        && nextjid == MaxJidOf(jobs[..]) + 1
    {
      if pid < 1 {
        return 0;
      }
      var i := 0;
      while i < MAXJOBS
        invariant 0 <= i <= MAXJOBS
        invariant forall m :: 0 <= m < i ==> jobs[m].pid != pid
      {
        if jobs[i].pid == pid {
          assert FindBy(ByPid, jobs[..], pid) == i by {
            assert forall m :: 0 <= m < i ==> jobs[..][m].pid != pid;
          }
          ClearJob(i);
          var m := MaxJid();
          nextjid := m + 1;
          return 1;
        }
        i := i + 1;
      }
      assert FindBy(ByPid, jobs[..], pid) == MAXJOBS by {
        assert forall m :: 0 <= m < MAXJOBS ==> jobs[..][m].pid != pid;
      }
      return 0;
    }

    /** `fgpid`: the pid of the first foreground job, 0 when there is none. */
    method FgPid() returns (r: int)
      requires Valid()
      ensures r == 0 <==> forall k :: 0 <= k < MAXJOBS ==> jobs[k].state != FG
      ensures r != 0 ==> exists k :: 0 <= k < MAXJOBS && jobs[k].state == FG && jobs[k].pid == r
                          && forall m :: 0 <= m < k ==> jobs[m].state != FG
    {
      var i := 0;
      while i < MAXJOBS
        invariant 0 <= i <= MAXJOBS
        invariant forall m :: 0 <= m < i ==> jobs[m].state != FG
      {
        if jobs[i].state == FG {
          return jobs[i].pid;
        }
        i := i + 1;
      }
      return 0;
    }

    /** `getjobpid`: the slot of the first job with `pid`; none for a pid
        below 1 or one not in the table. */
    method GetJobPid(pid: int) returns (r: int)
      requires Valid()
      ensures pid < 1 ==> r == -1
      ensures r == -1 || (0 <= r < MAXJOBS && jobs[r].pid == pid)
      ensures pid >= 1 ==> r == (if FindBy(ByPid, jobs[..], pid) < MAXJOBS then FindBy(ByPid, jobs[..], pid) else -1)
    {
      if pid < 1 {
        return -1;
      }
      var i := 0;
      while i < MAXJOBS
        invariant 0 <= i <= MAXJOBS
        invariant forall m :: 0 <= m < i ==> jobs[m].pid != pid
      {
        if jobs[i].pid == pid {
          assert forall m :: 0 <= m < i ==> jobs[..][m].pid != pid;
          return i;
        }
        i := i + 1;
      }
      assert forall m :: 0 <= m < MAXJOBS ==> jobs[..][m].pid != pid;
      return -1;
    }

    /** `getjobjid`: the slot of the first job with job ID `jid`; none for
        an ID below 1 or one not in the table.  A free slot never matches. */
    method GetJobJid(jid: int) returns (r: int)
      requires Valid()
      ensures jid < 1 ==> r == -1
      ensures r == -1 || (0 <= r < MAXJOBS && jobs[r].jid == jid && jobs[r].pid >= 1)
      ensures jid >= 1 ==> r == (if FindBy(ByJid, jobs[..], jid) < MAXJOBS then FindBy(ByJid, jobs[..], jid) else -1)
    {
      if jid < 1 {
        return -1;
      }
      var i := 0;
      while i < MAXJOBS
        invariant 0 <= i <= MAXJOBS
        invariant forall m :: 0 <= m < i ==> jobs[m].jid != jid
      {
        if jobs[i].jid == jid {
          assert forall m :: 0 <= m < i ==> jobs[..][m].jid != jid;
          return i;
        }
        i := i + 1;
      }
      assert forall m :: 0 <= m < MAXJOBS ==> jobs[..][m].jid != jid;
      return -1;
    }

    /** `pid2jid`: the job ID of the first job with `pid`, 0 when there is
        none; a job in the table never has job ID 0. */
    method Pid2Jid(pid: int) returns (r: int)
      requires Valid()
      ensures r == 0 <==> pid < 1 || FindBy(ByPid, jobs[..], pid) == MAXJOBS
      ensures r != 0 ==> r == jobs[FindBy(ByPid, jobs[..], pid)].jid
    {
      if pid < 1 {
        return 0;
      }
      var i := 0;
      while i < MAXJOBS
        invariant 0 <= i <= MAXJOBS
        invariant forall m :: 0 <= m < i ==> jobs[m].pid != pid
      {
        if jobs[i].pid == pid {
          assert forall m :: 0 <= m < i ==> jobs[..][m].pid != pid;
          return jobs[i].jid;
        }
        i := i + 1;
      }
      assert forall m :: 0 <= m < MAXJOBS ==> jobs[..][m].pid != pid;
      return 0;
    }
  }
}
