/** The job table of the phase 3 shell, as a value. */
module JobTable {
  import opened Wrappers

  const MAXJOBS := 16

  type Pid = nat

  datatype JobState = Empty | Foreground | Background | Stopped

  /** `job_t`; only the first `npids` process ids are kept. */
  datatype Job = Job(used: bool, jid: nat, pgid: Pid, pids: seq<Pid>, live: nat, state: JobState, cmdline: string)

  const NO_JOB := Job(false, 0, 0, [], 0, Empty, "")

  datatype Table = Table(jobs: seq<Job>, nextJid: nat, fgPgid: Pid)

  datatype Query = Free | ByJid(jid: nat) | ByPid(pid: Pid) | InForeground

  predicate Matches(q: Query, j: Job) {
    match q
    case Free => !j.used
    case ByJid(jid) => j.used && j.jid == jid
    case ByPid(pid) => j.used && pid in j.pids
    case InForeground => j.used && j.state == Foreground
  }

  /** The first slot that matches. */
  ghost function Find(jobs: seq<Job>, q: Query): (r: Option<nat>)
    ensures r.Some? ==> r.value < |jobs| && Matches(q, jobs[r.value])
                        && forall i :: 0 <= i < r.value ==> !Matches(q, jobs[i])
    ensures r.None? ==> forall i :: 0 <= i < |jobs| ==> !Matches(q, jobs[i])
  {
    if i: nat :| i < |jobs| && Matches(q, jobs[i]) && forall k :: 0 <= k < i ==> !Matches(q, jobs[k]) then Some(i)
    else NoneMatches(jobs, q, |jobs|); None
  }

  lemma {:induction false} NoneMatches(jobs: seq<Job>, q: Query, n: nat)
    requires n <= |jobs|
    requires !exists i: nat :: i < |jobs| && Matches(q, jobs[i]) && forall k :: 0 <= k < i ==> !Matches(q, jobs[k])
    ensures forall i :: 0 <= i < n ==> !Matches(q, jobs[i])
  {
    if n > 0 {
      NoneMatches(jobs, q, n - 1);
    }
  }

  /** `update_fg_pgid`. */
  ghost function Update(t: Table): Table {
    var k := Find(t.jobs, InForeground);
    t.(fgPgid := if k.Some? then t.jobs[k.value].pgid else 0)
  }

  const MAXLINE := 8192

  /** What the table keeps of a command line: the terminator needs a place too. */
  function Kept(cmdline: string): (text: string)
    ensures text <= cmdline && |text| == if |cmdline| < 8192 then |cmdline| else 8191
  {
    if |cmdline| < MAXLINE then cmdline else cmdline[..MAXLINE - 1]
  }

  /** `add_job`, and the slot that it takes. */
  ghost function Add(t: Table, pgid: Pid, pids: seq<Pid>, state: JobState, cmdline: string): (Table, Option<nat>) {
    var k := Find(t.jobs, Free);
    if k.None? then (t, None)
    else
      var j := Job(true, t.nextJid, pgid, pids, |pids|, state, Kept(cmdline));
      (Update(t.(jobs := t.jobs[k.value := j], nextJid := t.nextJid + 1)), k)
  }

  /** `delete_job`. */
  ghost function Delete(t: Table, i: nat): Table
    requires i < |t.jobs|
  {
    Update(t.(jobs := t.jobs[i := NO_JOB]))
  }

  ghost function SetState(t: Table, i: nat, state: JobState): Table
    requires i < |t.jobs|
  {
    t.(jobs := t.jobs[i := t.jobs[i].(state := state)])
  }

  /** What `waitpid` reports of a child. */
  datatype Status = WasStopped | WasContinued | HasEnded

  datatype Report = Report(pid: Pid, status: Status)

  /** One iteration of the loop of `sigchld_handler`. */
  ghost function HandleOne(t: Table, r: Report): Table {
    var k := Find(t.jobs, ByPid(r.pid));
    if k.None? then t
    else
      var i, j := k.value, t.jobs[k.value];
      match r.status
      case WasStopped => SetState(t, i, Stopped)
      case WasContinued => if j.state == Stopped then SetState(t, i, Background) else t
      case HasEnded =>
        var live := if j.live > 0 then j.live - 1 else 0;
        var t' := t.(jobs := t.jobs[i := j.(live := live)]);
        if live == 0 then Delete(t', i) else t'
  }

  ghost function HandleAll(t: Table, batch: seq<Report>): Table
    decreases |batch|
  {
    if batch == [] then t else HandleAll(HandleOne(t, batch[0]), batch[1..])
  }

  /** `sigchld_handler`, when `waitpid` gives these reports. */
  ghost function Handle(t: Table, batch: seq<Report>): Table {
    Update(HandleAll(t, batch))
  }

  /** The masked part of `builtin_fg` and of `builtin_bg`. */
  ghost function Resume(t: Table, jid: nat, state: JobState): (Table, Option<Pid>) {
    var k := Find(t.jobs, ByJid(jid));
    if k.None? then (t, None)
    else (Update(SetState(t, k.value, state)), Some(t.jobs[k.value].pgid))
  }
}

/** The shell, which updates its job table in place. */
module Shells {
  import opened JobTable
  import opened Wrappers

  class Shell {
    const jobs: array<Job>
    var nextJid: nat
    var fgPgid: Pid

    ghost function View(): Table
      reads this, jobs
    {
      Table(jobs[..], nextJid, fgPgid)
    }

    /** `init_jobs`, and the other variables. */
    constructor ()
      ensures jobs.Length == 16 && fresh(jobs) && View() == Table(seq(MAXJOBS, _ => NO_JOB), 1, 0)
    {
      jobs := new Job[MAXJOBS](_ => NO_JOB);
      nextJid, fgPgid := 1, 0;
    }

    /** `find_job_by_jid`. */
    method FindJobByJid(jid: nat) returns (r: Option<nat>)
      ensures r == Find(jobs[..], ByJid(jid))
    {
      for i := 0 to jobs.Length
        invariant forall k :: 0 <= k < i ==> !Matches(ByJid(jid), jobs[k])
      {
        if jobs[i].used && jobs[i].jid == jid {
          IsFirst(jobs[..], ByJid(jid), i);
          return Some(i);
        }
      }
      return None;
    }

    /** `find_job_by_pid`. */
    method FindJobByPid(pid: Pid) returns (r: Option<nat>)
      ensures r == Find(jobs[..], ByPid(pid))
    {
      for i := 0 to jobs.Length
        invariant forall k :: 0 <= k < i ==> !Matches(ByPid(pid), jobs[k])
      {
        if jobs[i].used {
          for j := 0 to |jobs[i].pids|
            invariant pid !in jobs[i].pids[..j]
          {
            if jobs[i].pids[j] == pid {
              IsFirst(jobs[..], ByPid(pid), i);
              return Some(i);
            }
          }
          assert jobs[i].pids[..|jobs[i].pids|] == jobs[i].pids;
        }
      }
      return None;
    }

    /** `find_foreground_job`. */
    method FindForegroundJob() returns (r: Option<nat>)
      ensures r == Find(jobs[..], InForeground)
    {
      for i := 0 to jobs.Length
        invariant forall k :: 0 <= k < i ==> !Matches(InForeground, jobs[k])
      {
        if jobs[i].used && jobs[i].state == Foreground {
          IsFirst(jobs[..], InForeground, i);
          return Some(i);
        }
      }
      return None;
    }

    /** `update_fg_pgid`. */
    method UpdateFgPgid()
      modifies this`fgPgid
      ensures View() == Update(old(View()))
    {
      var job := FindForegroundJob();
      fgPgid := if job.None? then 0 else jobs[job.value].pgid;
    }

    /** `add_job`. */
    method AddJob(pgid: Pid, pids: seq<Pid>, state: JobState, cmdline: string) returns (r: Option<nat>)
      modifies this`nextJid, this`fgPgid, jobs
      ensures (View(), r) == Add(old(View()), pgid, pids, state, cmdline)
    {
      for i := 0 to jobs.Length
        invariant forall k :: 0 <= k < i ==> !Matches(Free, jobs[k])
        invariant View() == old(View())
      {
        if !jobs[i].used {
          IsFirst(jobs[..], Free, i);
          jobs[i] := Job(true, nextJid, pgid, pids, |pids|, state, Kept(cmdline));
          assert jobs[..] == old(jobs[..])[i := jobs[i]];
          nextJid := nextJid + 1;
          UpdateFgPgid();
          return Some(i);
        }
      }
      return None;
    }

    /** `delete_job`. */
    method DeleteJob(i: nat)
      requires i < jobs.Length
      modifies this`fgPgid, jobs
      ensures View() == Delete(old(View()), i)
    {
      jobs[i] := NO_JOB;
      assert jobs[..] == old(jobs[..])[i := NO_JOB];
      UpdateFgPgid();
    }

    /** The body of the loop of `sigchld_handler`. */
    method HandleReport(report: Report)
      modifies this`fgPgid, jobs
      ensures View() == HandleOne(old(View()), report)
    {
      var k := FindJobByPid(report.pid);
      if k.None? {
        return;
      }
      var i := k.value;
      match report.status {
        case WasStopped =>
          jobs[i] := jobs[i].(state := Stopped);
        case WasContinued =>
          if jobs[i].state == Stopped {
            jobs[i] := jobs[i].(state := Background);
          }
        case HasEnded =>
          if jobs[i].live > 0 {
            jobs[i] := jobs[i].(live := jobs[i].live - 1);
          }
          assert jobs[..] == old(jobs[..])[i := jobs[i]];
          if jobs[i].live == 0 {
            DeleteJob(i);
          }
          return;
      }
      assert jobs[..] == old(jobs[..])[i := jobs[i]];
    }

    /** `sigchld_handler`, when `waitpid` gives these reports. */
    method SigchldHandler(batch: seq<Report>)
      modifies this`fgPgid, jobs
      ensures View() == Handle(old(View()), batch)
    {
      assert batch[0..] == batch;
      for n := 0 to |batch|
        invariant HandleAll(View(), batch[n..]) == HandleAll(old(View()), batch)
      {
        assert batch[n..][1..] == batch[n + 1..];
        HandleReport(batch[n]);
      }
      UpdateFgPgid();
    }

    /** The masked part of `builtin_fg`: what it does to the job, and the process group to wake up. */
    method FgMasked(jid: nat) returns (pgid: Option<Pid>)
      modifies this`fgPgid, jobs
      ensures (View(), pgid) == Resume(old(View()), jid, Foreground)
    {
      var k := FindJobByJid(jid);
      if k.None? {
        return None;
      }
      jobs[k.value] := jobs[k.value].(state := Foreground);
      assert jobs[..] == old(jobs[..])[k.value := jobs[k.value]];
      UpdateFgPgid();
      return Some(jobs[k.value].pgid);
    }

    /** The masked part of `builtin_bg`. */
    method BgMasked(jid: nat) returns (pgid: Option<Pid>)
      modifies this`fgPgid, jobs
      ensures (View(), pgid) == Resume(old(View()), jid, Background)
    {
      var k := FindJobByJid(jid);
      if k.None? {
        return None;
      }
      jobs[k.value] := jobs[k.value].(state := Background);
      assert jobs[..] == old(jobs[..])[k.value := jobs[k.value]];
      UpdateFgPgid();
      return Some(jobs[k.value].pgid);
    }
  }

  lemma IsFirst(jobs: seq<Job>, q: Query, i: nat)
    requires i < |jobs| && Matches(q, jobs[i]) && forall k :: 0 <= k < i ==> !Matches(q, jobs[k])
    ensures Find(jobs, q) == Some(i)
  {
  }
}
