/** The shell and its children as a transition system: steps of the main program between its masked
    sections, and runs of the SIGCHLD handler at any time that the signal is not blocked. */
module JobControl {
  import CommandLine
  import opened JobTable
  import opened Wrappers

  /** Where the main program is: at the prompt, in `builtin_fg` before `kill`, or in `wait_for_foreground`. */
  datatype Place = Prompt | Waking(pgid: Pid) | Waiting(pgid: Pid)

  /** A job that was entered in the table at some time. */
  datatype Entry = Entry(jid: nat, pids: seq<Pid>, cmdline: string)

  /** The shell together with what the kernel knows of its children. */
  datatype System = System(
    table: Table,
    place: Place,
    unreaped: set<Pid>,
    group: map<Pid, Pid>,
    history: seq<Entry>)

  datatype Action =
    | Launch(pids: seq<Pid>, bg: bool, cmdline: string)
    | Fg(jid: nat)
    | Woken(delivered: bool)
    | Bg(jid: nat)
    | Look
    | Sigchld(batch: seq<Report>)

  const START := System(Table(seq(MAXJOBS, _ => NO_JOB), 1, 0), Prompt, {}, map[], [])

  ghost predicate Distinct(pids: seq<Pid>) {
    forall i, j :: 0 <= i < j < |pids| ==> pids[i] != pids[j]
  }

  ghost function PidSet(pids: seq<Pid>): set<Pid> {
    set p | p in pids
  }

  /** The reports name children that have not been reaped yet. */
  ghost predicate Reportable(unreaped: set<Pid>, batch: seq<Report>)
    decreases |batch|
  {
    batch == [] || (batch[0].pid in unreaped && Reportable(Reap(unreaped, batch[0]), batch[1..]))
  }

  ghost function Reap(unreaped: set<Pid>, r: Report): set<Pid> {
    if r.status == HasEnded then unreaped - {r.pid} else unreaped
  }

  ghost function ReapAll(unreaped: set<Pid>, batch: seq<Report>): set<Pid>
    decreases |batch|
  {
    if batch == [] then unreaped else ReapAll(Reap(unreaped, batch[0]), batch[1..])
  }

  /** What the environment guarantees: process ids are fresh, and a signal to a process group fails only if no
      member of it is left. A pipeline has between one and `MAXCMDS` processes. */
  ghost predicate Enabled(s: System, a: Action) {
    match a
    case Launch(pids, _, _) =>
      && s.place == Prompt && 1 <= |pids| <= CommandLine.MAXCMDS && Distinct(pids)
      && (forall p :: p in pids ==> p > 0 && p !in s.group)
    case Fg(_) => s.place == Prompt
    case Bg(_) => s.place == Prompt
    case Woken(delivered) =>
      && s.place.Waking?
      && (!delivered ==> forall p :: p in s.unreaped && p in s.group ==> s.group[p] != s.place.pgid)
    case Look => s.place.Waiting?
    case Sigchld(batch) => Reportable(s.unreaped, batch)
  }

  ghost function Next(s: System, a: Action): System
    requires Enabled(s, a)
  {
    match a
    case Launch(pids, bg, cmdline) =>
      var (t, slot) := Add(s.table, pids[0], pids, if bg then Background else Foreground, cmdline);
      System(t, if slot.None? || bg then Prompt else Waiting(pids[0]),
             s.unreaped + PidSet(pids), s.group + map p | p in pids :: pids[0],
             if slot.None? then s.history else s.history + [Entry(s.table.nextJid, pids, Kept(cmdline))])
    case Fg(jid) =>
      var (t, pgid) := Resume(s.table, jid, Foreground);
      s.(table := t, place := if pgid.None? then Prompt else Waking(pgid.value))
    case Woken(delivered) => s.(place := if delivered then Waiting(s.place.pgid) else Prompt)
    case Bg(jid) => s.(table := Resume(s.table, jid, Background).0)
    case Look => if s.table.fgPgid == s.place.pgid then s else s.(place := Prompt)
    case Sigchld(batch) => s.(table := Handle(s.table, batch), unreaped := ReapAll(s.unreaped, batch))
  }

  /** The reports are of children that have not been reaped, neither before the batch nor by an earlier report of it. */
  lemma {:induction false} ReportableIff(unreaped: set<Pid>, batch: seq<Report>)
    ensures Reportable(unreaped, batch) <==>
            forall k :: 0 <= k < |batch| ==>
              batch[k].pid in unreaped && forall n :: 0 <= n < k ==> batch[n] != Report(batch[k].pid, HasEnded)
    decreases |batch|
  {
    if batch != [] {
      var r, rest := batch[0], batch[1..];
      var left := Reap(unreaped, r);
      ReportableIff(left, rest);
      assert forall k :: 0 <= k < |rest| ==> rest[k] == batch[k + 1];
      if r.pid in unreaped && Reportable(left, rest) {
        forall k, n | 0 <= k < |batch| && 0 <= n < k
          ensures batch[k].pid in unreaped && batch[n] != Report(batch[k].pid, HasEnded)
        {
          assert batch[k] == rest[k - 1] && rest[k - 1].pid in left;
          assert n > 0 ==> batch[n] == rest[n - 1];
        }
      }
      if !Reportable(left, rest) {
        var k :| 0 <= k < |rest| && !(rest[k].pid in left && forall n :: 0 <= n < k ==>
                                                               rest[n] != Report(rest[k].pid, HasEnded));
        if rest[k].pid in left {
          var n :| 0 <= n < k && rest[n] == Report(rest[k].pid, HasEnded);
          assert batch[n + 1] == Report(batch[k + 1].pid, HasEnded);
        } else if rest[k].pid in unreaped {
          assert batch[0] == Report(batch[k + 1].pid, HasEnded);
        }
        assert batch[k + 1] == rest[k];
      }
    }
  }

  /** Fresh process ids can be launched at the prompt. */
  lemma FreshCanBeLaunched(s: System, pids: seq<Pid>, bg: bool, cmdline: string)
    ensures Enabled(s, Launch(pids, bg, cmdline)) <==>
            && s.place == Prompt && 1 <= |pids| <= 16
            && (forall i, j :: 0 <= i < |pids| && 0 <= j < |pids| && i != j ==> pids[i] != pids[j])
            && (forall i :: 0 <= i < |pids| ==> pids[i] > 0 && pids[i] !in s.group)
  {
    assert forall i :: 0 <= i < |pids| ==> pids[i] in pids;
    if Distinct(pids) {
      forall i, j | 0 <= i < |pids| && 0 <= j < |pids| && i != j
        ensures pids[i] != pids[j]
      {
        assert pids[if i < j then i else j] != pids[if i < j then j else i];
      }
    }
  }

  // ---------- The invariant ----------

  /** The children of a job that have not been reaped. */
  ghost function Left(j: Job, unreaped: set<Pid>): set<Pid> {
    PidSet(j.pids) * unreaped
  }

  ghost predicate JobOk(j: Job, s: System) {
    j.used ==>
      && 1 <= j.jid <= |s.history| && s.history[j.jid - 1] == Entry(j.jid, j.pids, j.cmdline)
      && j.pids != [] && j.pgid == j.pids[0] > 0 && j.state != Empty
      && j.live == |Left(j, s.unreaped)| && 1 <= j.live <= |j.pids|
      && (forall p :: p in j.pids ==> p in s.group && s.group[p] == j.pgid)
  }

  /** No two jobs share a number or a process. */
  ghost predicate JobsApart(i: Job, j: Job) {
    i.used && j.used ==> i.jid != j.jid && PidSet(i.pids) !! PidSet(j.pids)
  }

  ghost predicate InTable(jobs: seq<Job>, jid: nat) {
    exists i :: 0 <= i < |jobs| && jobs[i].used && jobs[i].jid == jid
  }

  /** Job numbers are given out in order, and a job with a child that has not been reaped is in the table. */
  ghost predicate HistoryOk(s: System) {
    && s.table.nextJid == |s.history| + 1
    && (forall k :: 0 <= k < |s.history| ==> s.history[k].jid == k + 1)
    && (forall k, p :: 0 <= k < |s.history| && p in s.history[k].pids && p in s.unreaped ==>
          InTable(s.table.jobs, k + 1))
    && (forall k, p :: 0 <= k < |s.history| && p in s.history[k].pids ==> p in s.group)
  }

  ghost predicate AtMostOneForeground(jobs: seq<Job>) {
    forall i, j :: 0 <= i < j < |jobs| ==> !(Matches(InForeground, jobs[i]) && Matches(InForeground, jobs[j]))
  }

  /** `fg_pgid` is the process group of the job in the foreground, and 0 when there is none. */
  ghost predicate FgPgidOk(t: Table) {
    && (forall i :: 0 <= i < |t.jobs| && Matches(InForeground, t.jobs[i]) ==> t.fgPgid == t.jobs[i].pgid)
    && (t.fgPgid != 0 ==> exists i :: 0 <= i < |t.jobs| && Matches(InForeground, t.jobs[i]))
  }

  /** Only the job that the main program deals with may be in the foreground. */
  ghost predicate PlaceOk(jobs: seq<Job>, place: Place) {
    && (place == Prompt || place.pgid > 0)
    && forall i :: 0 <= i < |jobs| && Matches(InForeground, jobs[i]) ==> place != Prompt && jobs[i].pgid == place.pgid
  }

  ghost predicate JobsOk(s: System) {
    && |s.table.jobs| == MAXJOBS
    && (forall i :: 0 <= i < MAXJOBS ==> JobOk(s.table.jobs[i], s))
    && (forall i, j :: 0 <= i < j < MAXJOBS ==> JobsApart(s.table.jobs[i], s.table.jobs[j]))
    && HistoryOk(s)
  }

  /** All but the value of `fg_pgid`, which the handler brings up to date when it ends. */
  ghost predicate Core(s: System) {
    JobsOk(s) && AtMostOneForeground(s.table.jobs) && PlaceOk(s.table.jobs, s.place)
  }

  ghost predicate Inv(s: System) {
    Core(s) && FgPgidOk(s.table)
  }

  lemma StartIsOk()
    ensures Inv(START)
  {
  }

  // ---------- Steps keep the invariant ----------

  lemma UpdateIsOk(s: System)
    requires Core(s)
    ensures Inv(s.(table := Update(s.table)))
  {
    var s' := s.(table := Update(s.table));
    assert HistoryOk(s') && forall i :: 0 <= i < MAXJOBS ==> JobOk(s'.table.jobs[i], s');
  }

  /** One job changes, or leaves when it has no child left; and only its children are reaped. */
  lemma OneJobChanges(s: System, s': System, i: nat, j': Job)
    requires JobsOk(s) && i < MAXJOBS && s.table.jobs[i].used
    requires s'.table.jobs == s.table.jobs[i := j'] && s'.table.nextJid == s.table.nextJid
    requires s'.history == s.history && s'.group == s.group && s'.unreaped <= s.unreaped
    requires forall p :: p in s.unreaped && p !in s'.unreaped ==> p in s.table.jobs[i].pids
    requires JobOk(j', s')
    requires if j'.used then j'.jid == s.table.jobs[i].jid && j'.pids == s.table.jobs[i].pids
             else Left(s.table.jobs[i], s'.unreaped) == {}
    ensures JobsOk(s')
  {
    hide HistoryOk;
    var jobs, jobs' := s.table.jobs, s'.table.jobs;
    forall k | 0 <= k < MAXJOBS
      ensures JobOk(jobs'[k], s')
    {
      if k != i && jobs[k].used {
        assert JobsApart(jobs[if k < i then k else i], jobs[if k < i then i else k]);
        assert Left(jobs[k], s'.unreaped) == Left(jobs[k], s.unreaped);
      }
    }
    forall k, l | 0 <= k < l < MAXJOBS
      ensures JobsApart(jobs'[k], jobs'[l])
    {
      assert JobsApart(jobs[k], jobs[l]);
    }
    HistoryStaysOk(s, s', i, j');
  }

  lemma HistoryStaysOk(s: System, s': System, i: nat, j': Job)
    requires JobsOk(s) && i < MAXJOBS && s.table.jobs[i].used
    requires s'.table.jobs == s.table.jobs[i := j'] && s'.table.nextJid == s.table.nextJid
    requires s'.history == s.history && s'.group == s.group && s'.unreaped <= s.unreaped
    requires if j'.used then j'.jid == s.table.jobs[i].jid else Left(s.table.jobs[i], s'.unreaped) == {}
    ensures HistoryOk(s')
  {
    forall k, p | 0 <= k < |s.history| && p in s.history[k].pids && p in s'.unreaped
      ensures InTable(s'.table.jobs, k + 1)
    {
      StillInTable(s, s', i, j', k, p);
    }
  }

  lemma StillInTable(s: System, s': System, i: nat, j': Job, k: nat, p: Pid)
    requires JobsOk(s) && i < MAXJOBS && s.table.jobs[i].used && s'.table.jobs == s.table.jobs[i := j']
    requires s'.unreaped <= s.unreaped
    requires if j'.used then j'.jid == s.table.jobs[i].jid else Left(s.table.jobs[i], s'.unreaped) == {}
    requires k < |s.history| && p in s.history[k].pids && p in s'.unreaped
    ensures InTable(s'.table.jobs, k + 1)
  {
    var jobs, jobs' := s.table.jobs, s'.table.jobs;
    assert InTable(jobs, k + 1);
    var n :| 0 <= n < |jobs| && jobs[n].used && jobs[n].jid == k + 1;
    assert JobOk(jobs[n], s) && JobOk(jobs[i], s);
    assert n != i ==> jobs'[n] == jobs[n];
    assert p in PidSet(jobs[n].pids);
    if n == i {
      assert p in Left(jobs[i], s'.unreaped);
      assert jobs'[i].used && jobs'[i].jid == k + 1;
    }
  }

  lemma OneLess(j: Job, unreaped: set<Pid>, p: Pid)
    requires p in j.pids && p in unreaped
    ensures |Left(j, unreaped - {p})| == |Left(j, unreaped)| - 1
  {
    assert Left(j, unreaped - {p}) == Left(j, unreaped) - {p};
  }

  /** A job whose number, processes and count stay as they are. */
  lemma StateChanges(s: System, i: nat, state: JobState)
    requires JobsOk(s) && i < MAXJOBS && s.table.jobs[i].used && state != Empty
    ensures JobsOk(s.(table := SetState(s.table, i, state)))
  {
    hide HistoryOk, JobsApart, JobsOk;
    JobAt(s, i);
    OneJobChanges(s, s.(table := SetState(s.table, i, state)), i, s.table.jobs[i].(state := state));
  }

  lemma JobAt(s: System, i: nat)
    requires JobsOk(s) && i < MAXJOBS
    ensures |s.table.jobs| == MAXJOBS && JobOk(s.table.jobs[i], s)
    ensures s.table.jobs[i].used ==> s.table.jobs[i].pgid > 0
  {
  }

  lemma ChildHasEnded(s: System, r: Report, i: nat)
    requires JobsOk(s) && r.status == HasEnded && r.pid in s.unreaped
    requires Find(s.table.jobs, ByPid(r.pid)) == Some(i)
    ensures |s.table.jobs| == MAXJOBS && i < MAXJOBS
    ensures var j := s.table.jobs[i];
            HandleOne(s.table, r).jobs == s.table.jobs[i := if j.live == 1 then NO_JOB else j.(live := j.live - 1)]
    ensures JobsOk(s.(table := HandleOne(s.table, r), unreaped := Reap(s.unreaped, r)))
  {
    hide HistoryOk, JobsApart, JobsOk;
    JobAt(s, 0);
    JobAt(s, i);
    var s' := s.(table := HandleOne(s.table, r), unreaped := Reap(s.unreaped, r));
    var j := s.table.jobs[i];
    OneLess(j, s.unreaped, r.pid);
    var j' := if j.live == 1 then NO_JOB else j.(live := j.live - 1);
    assert s'.table.jobs == s.table.jobs[i := j'];
    OneJobChanges(s, s', i, j');
  }

  /** One report, handled: the job's live count drops with every child that has ended, and the job leaves the
      table with the last one. */
  lemma HandleOneIsOk(s: System, r: Report)
    requires Core(s) && r.pid in s.unreaped
    ensures Core(s.(table := HandleOne(s.table, r), unreaped := Reap(s.unreaped, r)))
  {
    hide JobsOk, JobOk, HistoryOk;
    JobAt(s, 0);
    var k := Find(s.table.jobs, ByPid(r.pid));
    if k.None? {
      NobodyKnows(s, r.pid, s.(unreaped := Reap(s.unreaped, r)));
    } else if r.status == HasEnded {
      ChildHasEnded(s, r, k.value);
    } else {
      StateChanges(s, k.value, if r.status == WasStopped then Stopped else Background);
    }
  }

  lemma NobodyKnows(s: System, p: Pid, s': System)
    requires Core(s) && forall i :: 0 <= i < MAXJOBS ==> !Matches(ByPid(p), s.table.jobs[i])
    requires s' == s.(unreaped := s'.unreaped) && s.unreaped - {p} <= s'.unreaped <= s.unreaped
    ensures Core(s')
  {
    forall i | 0 <= i < MAXJOBS
      ensures JobOk(s.table.jobs[i], s')
    {
      assert JobOk(s.table.jobs[i], s) && !Matches(ByPid(p), s.table.jobs[i]);
      if s.table.jobs[i].used {
        assert Left(s.table.jobs[i], s'.unreaped) == Left(s.table.jobs[i], s.unreaped);
      }
    }
  }

  lemma {:induction false} HandleAllIsOk(s: System, batch: seq<Report>)
    requires Core(s) && Reportable(s.unreaped, batch)
    ensures Core(s.(table := HandleAll(s.table, batch), unreaped := ReapAll(s.unreaped, batch)))
    decreases |batch|
  {
    if batch != [] {
      HandleOneIsOk(s, batch[0]);
      HandleAllIsOk(s.(table := HandleOne(s.table, batch[0]), unreaped := Reap(s.unreaped, batch[0])), batch[1..]);
    }
  }

  lemma SigchldIsOk(s: System, batch: seq<Report>)
    requires Inv(s) && Enabled(s, Sigchld(batch))
    ensures Inv(Next(s, Sigchld(batch)))
  {
    hide Core, FgPgidOk, Update, HandleAll, ReapAll;
    HandleAllIsOk(s, batch);
    UpdateIsOk(s.(table := HandleAll(s.table, batch), unreaped := ReapAll(s.unreaped, batch)));
  }

  lemma FgIsOk(s: System, jid: nat)
    requires Inv(s) && Enabled(s, Fg(jid))
    ensures Inv(Next(s, Fg(jid)))
  {
    hide JobsOk, JobOk, HistoryOk;
    JobAt(s, 0);
    var k := Find(s.table.jobs, ByJid(jid));
    if k.Some? {
      JobAt(s, k.value);
      StateChanges(s, k.value, Foreground);
      var t := SetState(s.table, k.value, Foreground);
      var s' := s.(table := t, place := Waking(s.table.jobs[k.value].pgid));
      assert JobsOk(s') by {
        SamePlaceless(s.(table := t), s');
      }
      UpdateIsOk(s');
    }
  }

  lemma SamePlaceless(s: System, s': System)
    requires JobsOk(s) && s' == s.(place := s'.place)
    ensures JobsOk(s')
  {
    forall i | 0 <= i < MAXJOBS
      ensures JobOk(s'.table.jobs[i], s')
    {
      assert JobOk(s.table.jobs[i], s);
    }
  }

  lemma BgIsOk(s: System, jid: nat)
    requires Inv(s) && Enabled(s, Bg(jid))
    ensures Inv(Next(s, Bg(jid)))
  {
    hide JobsOk, JobOk, HistoryOk;
    JobAt(s, 0);
    var k := Find(s.table.jobs, ByJid(jid));
    if k.Some? {
      StateChanges(s, k.value, Background);
      UpdateIsOk(s.(table := SetState(s.table, k.value, Background)));
    }
  }

  /** A job in the foreground has a child that has not been reaped, so that the signal that wakes it up arrives. */
  lemma WokenIsOk(s: System, delivered: bool)
    requires Inv(s) && Enabled(s, Woken(delivered))
    ensures Inv(Next(s, Woken(delivered)))
  {
    hide HistoryOk;
    var s' := Next(s, Woken(delivered));
    SamePlaceless(s, s');
    forall i | 0 <= i < MAXJOBS && Matches(InForeground, s.table.jobs[i])
      ensures delivered
    {
      var j := s.table.jobs[i];
      assert JobOk(j, s);
      assert Left(j, s.unreaped) != {};
      var p :| p in Left(j, s.unreaped);
      assert p in s.unreaped && p in s.group && s.group[p] == s.place.pgid;
    }
  }

  lemma LookIsOk(s: System)
    requires Inv(s) && Enabled(s, Look)
    ensures Inv(Next(s, Look))
  {
    hide HistoryOk, JobOk;
    SamePlaceless(s, Next(s, Look));
  }

  // ---------- Launching ----------

  lemma {:induction false} DistinctCount(pids: seq<Pid>)
    requires Distinct(pids)
    ensures |PidSet(pids)| == |pids|
  {
    if pids != [] {
      var n := |pids| - 1;
      DistinctCount(pids[..n]);
      assert PidSet(pids) == PidSet(pids[..n]) + {pids[n]};
      assert pids[n] !in pids[..n];
    }
  }

  /** The processes of the new pipeline are unknown to the jobs that are there already. */
  lemma OthersUnaffected(s: System, s': System, j: Job, pids: seq<Pid>)
    requires JobOk(j, s) && forall p :: p in pids ==> p !in s.group
    requires s'.unreaped == s.unreaped + PidSet(pids) && s'.group == s.group + map p | p in pids :: pids[0]
    requires s'.history == s.history || (s'.history != [] && s.history == s'.history[..|s'.history| - 1])
    requires pids != []
    ensures JobOk(j, s')
    ensures j.used ==> PidSet(j.pids) !! PidSet(pids)
  {
    if j.used {
      assert forall p :: p in j.pids ==> p in s.group;
      assert Left(j, s'.unreaped) == Left(j, s.unreaped);
      assert s'.history[j.jid - 1] == s.history[j.jid - 1];
    }
  }

  /** A pipeline that found no free slot: its processes are in no job. */
  lemma NotRegistered(s: System, pids: seq<Pid>, bg: bool, cmdline: string)
    requires Inv(s) && Enabled(s, Launch(pids, bg, cmdline)) && Find(s.table.jobs, Free).None?
    ensures Inv(Next(s, Launch(pids, bg, cmdline)))
  {
    var s' := Next(s, Launch(pids, bg, cmdline));
    forall i | 0 <= i < MAXJOBS
      ensures JobOk(s'.table.jobs[i], s')
    {
      OthersUnaffected(s, s', s.table.jobs[i], pids);
    }
    assert s'.history == s.history && s'.table == s.table;
    assert HistoryOk(s');
  }

  lemma AllAreLeft(j: Job, unreaped: set<Pid>)
    requires Distinct(j.pids)
    ensures |Left(j, unreaped + PidSet(j.pids))| == |j.pids|
  {
    DistinctCount(j.pids);
    assert Left(j, unreaped + PidSet(j.pids)) == PidSet(j.pids);
  }

  lemma NewJobIsOk(s: System, s': System, j: Job, pids: seq<Pid>)
    requires pids != [] && Distinct(pids) && (forall p :: p in pids ==> p > 0)
    requires s'.unreaped == s.unreaped + PidSet(pids) && s'.group == s.group + map p | p in pids :: pids[0]
    requires s'.history == s.history + [Entry(|s.history| + 1, pids, j.cmdline)]
    requires j.used && j.jid == |s.history| + 1 && j.pgid == pids[0]
    requires j.pids == pids && j.live == |pids| && j.state != Empty
    ensures JobOk(j, s')
  {
    hide Distinct, PidSet, Left;
    AllAreLeft(j, s.unreaped);
    assert pids[0] in pids;
  }

  lemma NewJobsOk(s: System, s': System, k: nat, j: Job, pids: seq<Pid>)
    requires JobsOk(s) && k < MAXJOBS && !s.table.jobs[k].used && s'.table.jobs == s.table.jobs[k := j]
    requires pids != [] && Distinct(pids) && (forall p :: p in pids ==> p > 0 && p !in s.group)
    requires s'.unreaped == s.unreaped + PidSet(pids) && s'.group == s.group + map p | p in pids :: pids[0]
    requires s'.history == s.history + [Entry(|s.history| + 1, pids, j.cmdline)]
    requires s'.table.nextJid == s.table.nextJid + 1
    requires j.used && j.jid == |s.history| + 1 && j.pgid == pids[0]
    requires j.pids == pids && j.live == |pids| && j.state != Empty
    ensures JobsOk(s')
  {
    hide HistoryOk, JobOk;
    forall i | 0 <= i < MAXJOBS
      ensures JobOk(s'.table.jobs[i], s')
      ensures i != k && s.table.jobs[i].used ==>
                PidSet(s.table.jobs[i].pids) !! PidSet(pids) && s.table.jobs[i].jid <= |s.history|
    {
      if i == k {
        NewJobIsOk(s, s', j, pids);
      } else {
        OthersUnaffected(s, s', s.table.jobs[i], pids);
        OldNumber(s, s.table.jobs[i]);
      }
    }
    forall a, b | 0 <= a < b < MAXJOBS
      ensures JobsApart(s'.table.jobs[a], s'.table.jobs[b])
    {
      assert JobsApart(s.table.jobs[a], s.table.jobs[b]);
    }
    NewHistoryOk(s, s', k, j, pids);
  }

  lemma OldNumber(s: System, j: Job)
    requires JobOk(j, s)
    ensures j.used ==> j.jid <= |s.history|
  {
  }

  lemma NewHistoryOk(s: System, s': System, k: nat, j: Job, pids: seq<Pid>)
    requires HistoryOk(s) && k < |s.table.jobs| && !s.table.jobs[k].used && s'.table.jobs == s.table.jobs[k := j]
    requires forall p :: p in pids ==> p !in s.group
    requires pids != []
    requires s'.unreaped == s.unreaped + PidSet(pids) && s'.group == s.group + map p | p in pids :: pids[0]
    requires s'.history == s.history + [Entry(|s.history| + 1, pids, j.cmdline)]
    requires s'.table.nextJid == s.table.nextJid + 1
    requires j.used && j.jid == |s.history| + 1
    ensures HistoryOk(s')
  {
    var n := |s.history|;
    forall m, p | 0 <= m < n + 1 && p in s'.history[m].pids && p in s'.unreaped
      ensures InTable(s'.table.jobs, m + 1)
    {
      if m == n {
        assert s'.table.jobs[k].used && s'.table.jobs[k].jid == n + 1;
      } else {
        assert s'.history[m] == s.history[m] && p in s.group && p in s.unreaped;
        assert InTable(s.table.jobs, m + 1);
        var i :| 0 <= i < |s.table.jobs| && s.table.jobs[i].used && s.table.jobs[i].jid == m + 1;
        assert s'.table.jobs[i] == s.table.jobs[i];
      }
    }
  }

  lemma LaunchIsOk(s: System, pids: seq<Pid>, bg: bool, cmdline: string)
    requires Inv(s) && Enabled(s, Launch(pids, bg, cmdline))
    ensures Inv(Next(s, Launch(pids, bg, cmdline)))
  {
    hide JobsOk, HistoryOk, JobOk;
    JobAt(s, 0);
    var k := Find(s.table.jobs, Free);
    if k.None? {
      NotRegistered(s, pids, bg, cmdline);
    } else {
      assert pids[0] in pids;
      NumberIsNext(s);
      var s' := Next(s, Launch(pids, bg, cmdline));
      var j := Job(true, s.table.nextJid, pids[0], pids, |pids|, if bg then Background else Foreground, Kept(cmdline));
      NewJobsOk(s, s', k.value, j, pids);
      var t := s.table.(jobs := s.table.jobs[k.value := j], nextJid := s.table.nextJid + 1);
      assert s'.table == Update(t);
      FgPgidIsOk(t);
    }
  }

  lemma NumberIsNext(s: System)
    requires JobsOk(s)
    ensures s.table.nextJid == |s.history| + 1
  {
  }

  lemma FgPgidIsOk(t: Table)
    requires AtMostOneForeground(t.jobs)
    ensures FgPgidOk(Update(t))
  {
  }

  /** Every step keeps the invariant, whenever the handler runs and whatever it reaps. */
  lemma NextIsOk(s: System, a: Action)
    requires Inv(s) && Enabled(s, a)
    ensures Inv(Next(s, a))
  {
    hide Inv, Next, Enabled;
    match a {
      case Launch(pids, bg, cmdline) => LaunchIsOk(s, pids, bg, cmdline);
      case Fg(jid) => FgIsOk(s, jid);
      case Woken(delivered) => WokenIsOk(s, delivered);
      case Bg(jid) => BgIsOk(s, jid);
      case Look => LookIsOk(s);
      case Sigchld(batch) => SigchldIsOk(s, batch);
    }
  }

  // ---------- Runs ----------

  ghost predicate CanRun(s: System, actions: seq<Action>)
    decreases |actions|
  {
    actions == [] || (Enabled(s, actions[0]) && CanRun(Next(s, actions[0]), actions[1..]))
  }

  ghost function Run(s: System, actions: seq<Action>): System
    requires CanRun(s, actions)
    decreases |actions|
  {
    if actions == [] then s else Run(Next(s, actions[0]), actions[1..])
  }

  /** A run can go on with any step that is enabled where it has led. */
  lemma {:induction false} RunGoesOn(s: System, actions: seq<Action>, a: Action)
    requires CanRun(s, actions) && Enabled(Run(s, actions), a)
    ensures CanRun(s, actions + [a]) && Run(s, actions + [a]) == Next(Run(s, actions), a)
    decreases |actions|
  {
    hide Enabled, Next;
    if actions == [] {
      assert ([] + [a])[1..] == [];
    } else {
      assert (actions + [a])[1..] == actions[1..] + [a];
      RunGoesOn(Next(s, actions[0]), actions[1..], a);
    }
  }

  lemma {:induction false} RunIsOk(s: System, actions: seq<Action>)
    requires Inv(s) && CanRun(s, actions)
    ensures Inv(Run(s, actions))
    decreases |actions|
  {
    hide Inv, Next, Enabled;
    if actions != [] {
      NextIsOk(s, actions[0]);
      RunIsOk(Next(s, actions[0]), actions[1..]);
    }
  }

  /** In every reachable state at most one job is in the foreground, `fg_pgid` is its process group, or 0 when
      there is none, and there is none when the shell is at its prompt. */
  lemma ForegroundIsRight(actions: seq<Action>)
    requires CanRun(START, actions)
    ensures var s := Run(START, actions); var jobs := s.table.jobs;
            && |jobs| == MAXJOBS
            && (forall i, j :: 0 <= i < MAXJOBS && 0 <= j < MAXJOBS && i != j ==>
                  !(Matches(InForeground, jobs[i]) && Matches(InForeground, jobs[j])))
            && (forall i :: 0 <= i < MAXJOBS && Matches(InForeground, jobs[i]) ==> s.table.fgPgid == jobs[i].pgid > 0)
            && (s.table.fgPgid == 0 <==> forall i :: 0 <= i < MAXJOBS ==> !Matches(InForeground, jobs[i]))
            && (s.place == Prompt ==> forall i :: 0 <= i < MAXJOBS ==> !Matches(InForeground, jobs[i]))
  {
    hide Run, CanRun, HistoryOk, START;
    RunsAreOk(actions);
    var s := Run(START, actions);
    forall i | 0 <= i < MAXJOBS && Matches(InForeground, s.table.jobs[i])
      ensures s.table.jobs[i].pgid > 0
    {
      assert JobOk(s.table.jobs[i], s);
    }
  }

  lemma RunsAreOk(actions: seq<Action>)
    requires CanRun(START, actions)
    ensures Inv(Run(START, actions))
  {
    StartIsOk();
    RunIsOk(START, actions);
  }

  /** In every reachable state a job has the processes and the command line that it was registered with, its live
      count is the number of its processes that have not been reaped, and it is never 0. */
  lemma LiveCountsAreRight(actions: seq<Action>, i: nat)
    requires CanRun(START, actions) && i < MAXJOBS
    ensures var s := Run(START, actions);
            && |s.table.jobs| == MAXJOBS
            && (s.table.jobs[i].used ==>
                  && Entry(s.table.jobs[i].jid, s.table.jobs[i].pids, s.table.jobs[i].cmdline) in s.history
                  && s.table.jobs[i].live == |Left(s.table.jobs[i], s.unreaped)|
                  && 1 <= s.table.jobs[i].live <= |s.table.jobs[i].pids|)
  {
    hide Run, CanRun, HistoryOk, START;
    RunsAreOk(actions);
    var s := Run(START, actions);
    assert JobOk(s.table.jobs[i], s);
  }

  /** In every reachable state no two jobs share a number or a process. */
  lemma JobsShareNothing(actions: seq<Action>, i: nat, j: nat)
    requires CanRun(START, actions) && i < MAXJOBS && j < MAXJOBS && i != j
    ensures var s := Run(START, actions);
            && |s.table.jobs| == MAXJOBS
            && (s.table.jobs[i].used && s.table.jobs[j].used ==>
                  && s.table.jobs[i].jid != s.table.jobs[j].jid
                  && PidSet(s.table.jobs[i].pids) !! PidSet(s.table.jobs[j].pids))
  {
    hide Run, CanRun, HistoryOk, START;
    RunsAreOk(actions);
    var jobs := Run(START, actions).table.jobs;
    assert JobsApart(jobs[if i < j then i else j], jobs[if i < j then j else i]);
  }

  /** No exit is lost, and none is counted twice: at any time, a job that was ever registered is in the table exactly
      if one of its processes has not been reaped, and its number is its place in the order of registration. */
  lemma NoExitIsLost(actions: seq<Action>, k: nat)
    requires CanRun(START, actions) && k < |Run(START, actions).history|
    ensures var s := Run(START, actions);
            && s.history[k].jid == k + 1
            && (InTable(s.table.jobs, k + 1) <==> exists p :: p in s.history[k].pids && p in s.unreaped)
  {
    hide Run, CanRun, START;
    RunsAreOk(actions);
    var s := Run(START, actions);
    if InTable(s.table.jobs, k + 1) {
      var i :| 0 <= i < |s.table.jobs| && s.table.jobs[i].used && s.table.jobs[i].jid == k + 1;
      assert JobOk(s.table.jobs[i], s);
      assert Left(s.table.jobs[i], s.unreaped) != {};
      var p :| p in Left(s.table.jobs[i], s.unreaped);
      assert p in s.history[k].pids && p in s.unreaped;
    }
  }

  /** Numbers are never given out again: what was registered stays registered under its number. */
  lemma {:induction false} HistoryGrows(s: System, actions: seq<Action>)
    requires CanRun(s, actions)
    ensures s.history <= Run(s, actions).history
    decreases |actions|
  {
    if actions != [] {
      HistoryGrows(Next(s, actions[0]), actions[1..]);
    }
  }

  lemma OwnerIsUnique(s: System, i: nat, k: nat, p: Pid)
    requires JobsOk(s) && i < MAXJOBS && k < MAXJOBS && i != k && s.table.jobs[i].used && s.table.jobs[k].used
    ensures !(p in s.table.jobs[i].pids && p in s.table.jobs[k].pids)
  {
    var a, b := s.table.jobs[if i < k then i else k], s.table.jobs[if i < k then k else i];
    assert JobsApart(a, b);
    assert p in a.pids ==> p in PidSet(a.pids);
    assert p in b.pids ==> p in PidSet(b.pids);
  }

  /** The report that reaps the last process of a job is the one that takes the job out of the table. */
  lemma LastChildRemovesJob(s: System, r: Report, i: nat)
    requires Core(s) && r.pid in s.unreaped && r.status == HasEnded && i < MAXJOBS
    requires s.table.jobs[i].used && r.pid in s.table.jobs[i].pids
    ensures var jobs := HandleOne(s.table, r).jobs;
            && |jobs| == MAXJOBS
            && (forall k :: 0 <= k < MAXJOBS && k != i ==> jobs[k] == s.table.jobs[k])
            && (jobs[i].used <==> Left(s.table.jobs[i], s.unreaped) != {r.pid})
            && (jobs[i].used ==> jobs[i] == s.table.jobs[i].(live := s.table.jobs[i].live - 1))
  {
    hide HistoryOk;
    var k := Find(s.table.jobs, ByPid(r.pid));
    var j := s.table.jobs[i];
    assert JobOk(j, s) && k.Some?;
    if k.value != i {
      OwnerIsUnique(s, i, k.value, r.pid);
    }
    ChildHasEnded(s, r, i);
    assert r.pid in Left(j, s.unreaped);
    if j.live == 1 {
      OneElement(Left(j, s.unreaped), r.pid);
    }
  }

  // ---------- What the handler and the steps do to the jobs ----------

  /** The report says of a child of the job that it was stopped or continued. */
  ghost predicate Signals(r: Report, pids: seq<Pid>) {
    r.pid in pids && r.status != HasEnded
  }

  /** No later report of the batch says of a child of the job that it was stopped or continued. */
  ghost predicate LastSignal(batch: seq<Report>, k: nat, pids: seq<Pid>) {
    && k < |batch| && Signals(batch[k], pids)
    && forall n :: k < n < |batch| ==> !Signals(batch[n], pids)
  }

  ghost predicate SomeStop(batch: seq<Report>, pids: seq<Pid>) {
    exists k :: 0 <= k < |batch| && batch[k].pid in pids && batch[k].status == WasStopped
  }

  ghost predicate Ends(batch: seq<Report>, p: Pid) {
    exists k :: 0 <= k < |batch| && batch[k] == Report(p, HasEnded)
  }

  lemma {:induction false} ReapAllIs(unreaped: set<Pid>, batch: seq<Report>, p: Pid)
    ensures p in ReapAll(unreaped, batch) <==> p in unreaped && !Ends(batch, p)
    decreases |batch|
  {
    if batch != [] {
      ReapAllIs(Reap(unreaped, batch[0]), batch[1..], p);
      assert forall k :: 1 <= k < |batch| ==> batch[k] == batch[1..][k - 1];
      assert Ends(batch, p) <==> batch[0] == Report(p, HasEnded) || Ends(batch[1..], p) by {
        assert forall k :: 0 <= k < |batch[1..]| ==> batch[1..][k] == batch[k + 1];
      }
    }
  }

  /** One report changes the job of its process and no other: it is stopped; it goes on in the background, if it was
      stopped; or it loses one live process, and is gone with the last one. */
  lemma ReportDoes(s: System, r: Report, i: nat)
    requires Core(s) && r.pid in s.unreaped && i < MAXJOBS
    ensures var j, t := s.table.jobs[i], HandleOne(s.table, r);
            && |t.jobs| == |s.table.jobs| == 16 && t.nextJid == s.table.nextJid
            && (!j.used || r.pid !in j.pids ==> t.jobs[i] == j)
            && (j.used && r.pid in j.pids ==>
                  match r.status
                  case WasStopped => t.jobs[i] == j.(state := Stopped)
                  case WasContinued => t.jobs[i] == if j.state == Stopped then j.(state := Background) else j
                  case HasEnded => if PidSet(j.pids) * s.unreaped == {r.pid} then !t.jobs[i].used
                                   else t.jobs[i] == j.(live := j.live - 1))
  {
    hide JobsOk, HistoryOk;
    JobAt(s, i);
    var k := Find(s.table.jobs, ByPid(r.pid));
    if k.Some? {
      JobAt(s, k.value);
      if s.table.jobs[i].used && r.pid in s.table.jobs[i].pids {
        if k.value != i {
          OwnerIsUnique(s, i, k.value, r.pid);
        } else if r.status == HasEnded {
          LastChildRemovesJob(s, r, i);
        }
      } else if r.status == HasEnded {
        ChildHasEnded(s, r, k.value);
      }
    }
  }

  /** The state of a job after some reports on its processes. */
  ghost function StateAfter(state: JobState, batch: seq<Report>, pids: seq<Pid>): JobState
    decreases |batch|
  {
    if batch == [] then state
    else StateAfter(
      if !Signals(batch[0], pids) then state
      else if batch[0].status == WasStopped then Stopped
      else if state == Stopped then Background else state, batch[1..], pids)
  }

  /** The last report decides, and a job that goes on after a stop goes on in the background. */
  lemma {:induction false} LastSignalDecides(state: JobState, batch: seq<Report>, pids: seq<Pid>)
    ensures forall k: nat {:trigger LastSignal(batch, k, pids)} :: LastSignal(batch, k, pids) ==>
              StateAfter(state, batch, pids)
              == if batch[k].status == WasStopped then Stopped
                 else if state == Stopped || SomeStop(batch, pids) then Background else state
    ensures (forall k :: 0 <= k < |batch| ==> !Signals(batch[k], pids)) ==> StateAfter(state, batch, pids) == state
    decreases |batch|
  {
    if batch != [] {
      var r, rest := batch[0], batch[1..];
      var state' := if !Signals(r, pids) then state else if r.status == WasStopped then Stopped
                    else if state == Stopped then Background else state;
      LastSignalDecides(state', rest, pids);
      assert forall k :: 0 <= k < |rest| ==> rest[k] == batch[k + 1];
      assert SomeStop(batch, pids) <==> (r.pid in pids && r.status == WasStopped) || SomeStop(rest, pids) by {
        assert forall k :: 1 <= k < |batch| ==> batch[k] == rest[k - 1];
      }
      forall k: nat | LastSignal(batch, k, pids)
        ensures StateAfter(state, batch, pids)
             == if batch[k].status == WasStopped then Stopped
                else if state == Stopped || SomeStop(batch, pids) then Background else state
      {
        if k > 0 {
          assert LastSignal(rest, k - 1, pids);
        } else {
          assert forall n :: 0 <= n < |rest| ==> !Signals(rest[n], pids);
          NoSignalNoStop(rest, pids);
        }
      }
    }
  }

  lemma NoSignalNoStop(batch: seq<Report>, pids: seq<Pid>)
    requires forall k :: 0 <= k < |batch| ==> !Signals(batch[k], pids)
    ensures !SomeStop(batch, pids)
  {
  }

  lemma {:induction false} BatchDoes(s: System, batch: seq<Report>, i: nat)
    requires Core(s) && Reportable(s.unreaped, batch) && i < MAXJOBS
    ensures var j, t := s.table.jobs[i], HandleAll(s.table, batch);
            var left := Left(j, ReapAll(s.unreaped, batch));
            && |t.jobs| == |s.table.jobs| == 16 && t.nextJid == s.table.nextJid
            && (!j.used ==> t.jobs[i] == j)
            && (j.used && left == {} ==> !t.jobs[i].used)
            && (j.used && left != {} ==> t.jobs[i] == j.(live := |left|, state := StateAfter(j.state, batch, j.pids)))
    decreases |batch|
  {
    hide Core, HandleOne, Reap, JobOk;
    CoreAt(s, i);
    var j := s.table.jobs[i];
    if batch != [] {
      var r := batch[0];
      HandleOneIsOk(s, r);
      ReportDoes(s, r, i);
      var s' := s.(table := HandleOne(s.table, r), unreaped := Reap(s.unreaped, r));
      BatchDoes(s', batch[1..], i);
      if j.used && r.status == HasEnded && PidSet(j.pids) * s.unreaped == {r.pid} {
        NoneLeft(j, s.unreaped, r, batch[1..]);
      }
    }
  }

  lemma CoreAt(s: System, i: nat)
    requires Core(s) && i < MAXJOBS
    ensures var j := s.table.jobs[i]; |s.table.jobs| == 16 && (j.used ==> j.live == |Left(j, s.unreaped)| >= 1)
  {
    assert JobOk(s.table.jobs[i], s);
  }

  lemma {:induction false} ReapAllShrinks(unreaped: set<Pid>, batch: seq<Report>)
    ensures ReapAll(unreaped, batch) <= unreaped
    decreases |batch|
  {
    if batch != [] {
      ReapAllShrinks(Reap(unreaped, batch[0]), batch[1..]);
    }
  }

  /** When the last child of a job has been reaped, none is left whatever is reaped then. */
  lemma NoneLeft(j: Job, unreaped: set<Pid>, r: Report, rest: seq<Report>)
    requires r.status == HasEnded && PidSet(j.pids) * unreaped == {r.pid}
    ensures Left(j, ReapAll(Reap(unreaped, r), rest)) == {}
  {
    hide ReapAll;
    ReapAllShrinks(Reap(unreaped, r), rest);
    assert Left(j, Reap(unreaped, r)) == {};
  }

  /** The children of the job that are left after the batch. */
  ghost function Survivors(j: Job, unreaped: set<Pid>, batch: seq<Report>): (left: set<Pid>)
    ensures forall p :: p in left <==> p in j.pids && p in unreaped && !Ends(batch, p)
  {
    forall p
      ensures p in ReapAll(unreaped, batch) <==> p in unreaped && !Ends(batch, p)
    {
      ReapAllIs(unreaped, batch, p);
    }
    Left(j, ReapAll(unreaped, batch))
  }

  /** What a run of the handler does to every slot: a free one stays free; a job without a child left is gone; any
      other job has its live count lowered to the children left, it is stopped if the last signal of its children was
      a stop, and if that was a continue it is in the background unless it was never stopped. */
  lemma HandlerDoes(s: System, batch: seq<Report>, i: nat)
    requires Core(s) && Reportable(s.unreaped, batch) && i < MAXJOBS
    ensures var j, t := s.table.jobs[i], Handle(s.table, batch);
            && |t.jobs| == |s.table.jobs| == 16 && t.nextJid == s.table.nextJid
            && (t.jobs[i].used <==> j.used && Survivors(j, s.unreaped, batch) != {})
            && (!j.used ==> t.jobs[i] == j)
            && (t.jobs[i].used ==>
                  t.jobs[i] == j.(live := |Survivors(j, s.unreaped, batch)|, state := t.jobs[i].state))
    ensures var j, j' := s.table.jobs[i], Handle(s.table, batch).jobs[i];
            j'.used ==>
              && (forall k :: 0 <= k < |batch| && Signals(batch[k], j.pids)
                              && (forall n :: k < n < |batch| ==> !Signals(batch[n], j.pids)) ==>
                    j'.state == if batch[k].status == WasStopped then Stopped
                                else if j.state == Stopped || SomeStop(batch, j.pids) then Background else j.state)
              && ((forall k :: 0 <= k < |batch| ==> !Signals(batch[k], j.pids)) ==> j'.state == j.state)
  {
    hide Core, HandleAll, Signals, SomeStop, StateAfter;
    CoreAt(s, i);
    BatchDoes(s, batch, i);
    var pids := s.table.jobs[i].pids;
    LastSignalDecides(s.table.jobs[i].state, batch, pids);
    forall k | 0 <= k < |batch| && Signals(batch[k], pids) && (forall n :: k < n < |batch| ==> !Signals(batch[n], pids))
      ensures LastSignal(batch, k, pids)
    {
    }
  }

  /** A foreground job stays in the foreground while the handler runs exactly if a child of it is left and none of its
      children was stopped. */
  lemma StaysInForeground(s: System, batch: seq<Report>, i: nat)
    requires Core(s) && Reportable(s.unreaped, batch) && i < MAXJOBS
    ensures var j, t := s.table.jobs[i], Handle(s.table, batch);
            |t.jobs| == 16 &&
            (Matches(InForeground, t.jobs[i])
             <==> Matches(InForeground, j) && Survivors(j, s.unreaped, batch) != {} && !SomeStop(batch, j.pids))
  {
    hide Core, HandleAll, Survivors;
    CoreAt(s, i);
    BatchDoes(s, batch, i);
    HandlerDoes(s, batch, i);
    StopsForGood(s.table.jobs[i].state, batch, s.table.jobs[i].pids);
  }

  lemma {:induction false} StopsForGood(state: JobState, batch: seq<Report>, pids: seq<Pid>)
    ensures StateAfter(state, batch, pids) == Foreground <==> state == Foreground && !SomeStop(batch, pids)
    decreases |batch|
  {
    if batch != [] {
      var r, rest := batch[0], batch[1..];
      var state' := if !Signals(r, pids) then state else if r.status == WasStopped then Stopped
                    else if state == Stopped then Background else state;
      StopsForGood(state', rest, pids);
      assert SomeStop(batch, pids) <==> (r.pid in pids && r.status == WasStopped) || SomeStop(rest, pids) by {
        assert forall k :: 0 <= k < |rest| ==> rest[k] == batch[k + 1];
        assert forall k :: 1 <= k < |batch| ==> batch[k] == rest[k - 1];
      }
    }
  }

  /** The shell that waits goes on waiting after a run of the handler exactly if its job has a child left and none of
      its children was stopped; otherwise `fg_pgid` is 0 and the next look leads to the prompt. */
  lemma LookAfterHandler(s: System, batch: seq<Report>)
    requires Inv(s) && s.place.Waiting? && Reportable(s.unreaped, batch)
    ensures var s', jobs := Next(s, Sigchld(batch)), s.table.jobs;
            var waits := exists i :: 0 <= i < 16 && |jobs| == 16 && Matches(InForeground, jobs[i])
                                     && Survivors(jobs[i], s.unreaped, batch) != {} && !SomeStop(batch, jobs[i].pids);
            && (s'.table.fgPgid == if waits then s.place.pgid else 0)
            && Next(s', Look).place == (if waits then s.place else Prompt)
            && Next(s', Look).table == s'.table
  {
    var s' := Next(s, Sigchld(batch));
    SigchldIsOk(s, batch);
    hide JobsOk, Handle, Survivors, SomeStop;
    forall i | 0 <= i < 16
      ensures |s.table.jobs| == |s'.table.jobs| == 16
      ensures var j := s.table.jobs[i];
              Matches(InForeground, s'.table.jobs[i])
              <==> Matches(InForeground, j) && Survivors(j, s.unreaped, batch) != {} && !SomeStop(batch, j.pids)
    {
      JobAt(s, i);
      StaysInForeground(s, batch, i);
    }
  }

  /** When the signal of `fg` arrives the shell waits for the job; when it does not, no job is in the foreground any
      more and the shell goes back to its prompt. */
  lemma WokenDoes(s: System, delivered: bool)
    requires Inv(s) && Enabled(s, Woken(delivered))
    ensures var s' := Next(s, Woken(delivered));
            && s' == s.(place := if delivered then Waiting(s.place.pgid) else Prompt)
            && (!delivered ==> forall i :: 0 <= i < |s.table.jobs| ==> !Matches(InForeground, s.table.jobs[i]))
  {
    WokenIsOk(s, delivered);
  }

  /** The waiting shell goes on waiting exactly as long as a job is in the foreground, which is the one it waits for. */
  lemma LookDoes(s: System, i: nat)
    requires Inv(s) && s.place.Waiting? && i < MAXJOBS
    ensures |s.table.jobs| == 16
    ensures Matches(InForeground, s.table.jobs[i]) ==>
              s.table.jobs[i].pgid == s.place.pgid == s.table.fgPgid && Next(s, Look) == s
    ensures (forall k :: 0 <= k < 16 ==> !Matches(InForeground, s.table.jobs[k])) ==>
              s.table.fgPgid == 0 && Next(s, Look) == s.(place := Prompt)
  {
    hide JobsOk;
    JobAt(s, i);
  }

  /** A number belongs to one used slot at most. */
  lemma NumberIsUnique(s: System, i: nat)
    requires JobsOk(s) && i < MAXJOBS && s.table.jobs[i].used
    ensures Find(s.table.jobs, ByJid(s.table.jobs[i].jid)) == Some(i)
  {
  }

  /** `fg` brings exactly the job with this number to the foreground, if there is one. */
  lemma FgDoes(s: System, jid: nat, i: nat)
    requires Inv(s) && s.place == Prompt && i < MAXJOBS
    ensures !InTable(s.table.jobs, jid) ==> Next(s, Fg(jid)) == s
    ensures |s.table.jobs| == 16
    ensures var j := s.table.jobs[i];
            j.used && j.jid == jid ==>
              Next(s, Fg(jid))
              == s.(table := Table(s.table.jobs[i := j.(state := Foreground)], s.table.nextJid, j.pgid),
                    place := Waking(j.pgid))
  {
    hide JobsOk, PlaceOk, AtMostOneForeground;
    FgIsOk(s, jid);
    JobAt(s, i);
    var j := s.table.jobs[i];
    if j.used && j.jid == jid {
      NumberIsUnique(s, i);
      var jobs := s.table.jobs[i := j.(state := Foreground)];
      assert Next(s, Fg(jid)).table.jobs == jobs && Matches(InForeground, jobs[i]);
    }
  }

  /** `bg` lets exactly the job with this number go on in the background, if there is one, and signals its group. */
  lemma BgDoes(s: System, jid: nat, i: nat)
    requires Inv(s) && s.place == Prompt && i < MAXJOBS
    ensures !InTable(s.table.jobs, jid) ==> Next(s, Bg(jid)) == s && Resume(s.table, jid, Background).1 == None
    ensures |s.table.jobs| == 16
    ensures var j := s.table.jobs[i];
            j.used && j.jid == jid ==>
              && Next(s, Bg(jid)) == s.(table := Table(s.table.jobs[i := j.(state := Background)], s.table.nextJid, 0))
              && Resume(s.table, jid, Background).1 == Some(j.pgid)
  {
    BgIsOk(s, jid);
    hide JobsOk;
    JobAt(s, i);
    if s.table.jobs[i].used && s.table.jobs[i].jid == jid {
      NumberIsUnique(s, i);
    }
  }

  /** A launch enters the job in the first free slot, and the shell waits for it if it is in the foreground; without a
      free slot the processes run, but no job is entered. */
  lemma LaunchDoes(s: System, pids: seq<Pid>, bg: bool, cmdline: string, i: nat)
    requires Inv(s) && Enabled(s, Launch(pids, bg, cmdline)) && i <= |s.table.jobs|
    requires (forall k :: 0 <= k < i ==> s.table.jobs[k].used) && (i < |s.table.jobs| ==> !s.table.jobs[i].used)
    ensures var s', state := Next(s, Launch(pids, bg, cmdline)), if bg then Background else Foreground;
            && s'.unreaped == s.unreaped + PidSet(pids)
            && if i == |s.table.jobs| then s'.table == s.table && s'.place == Prompt
               else
                 && s'.table.jobs
                    == s.table.jobs[i := Job(true, s.table.nextJid, pids[0], pids, |pids|, state, Kept(cmdline))]
                 && s'.table.nextJid == s.table.nextJid + 1
                 && (if bg then s'.table.fgPgid == 0 && s'.place == Prompt
                     else s'.table.fgPgid == pids[0] && s'.place == Waiting(pids[0]))
  {
    hide JobsOk, AtMostOneForeground;
    LaunchIsOk(s, pids, bg, cmdline);
    if i < |s.table.jobs| {
      assert Matches(Free, s.table.jobs[i]);
      var s' := Next(s, Launch(pids, bg, cmdline));
      assert !bg ==> Matches(InForeground, s'.table.jobs[i]);
    }
  }

  lemma OneElement(pids: set<Pid>, p: Pid)
    requires |pids| == 1 && p in pids
    ensures pids == {p}
  {
    assert |pids - {p}| == 0;
  }
}
