/** The shell at work: its methods take the steps of the transition system. */
module ShellRuns {
  import opened JobControl
  import opened JobTable
  import opened Shells

  /** One step of the main program or of the handler, on the job table in place. */
  method Perform(shell: Shell, place: Place, a: Action, ghost s: System) returns (place': Place)
    requires shell.View() == s.table && place == s.place && Enabled(s, a)
    modifies shell, shell.jobs
    ensures shell.View() == Next(s, a).table && place' == Next(s, a).place
  {
    hide Add, Handle, Resume;
    place' := place;
    match a {
      case Launch(pids, bg, cmdline) =>
        var job := shell.AddJob(pids[0], pids, if bg then Background else Foreground, cmdline);
        place' := if job.None? || bg then Prompt else Waiting(pids[0]);
      case Fg(jid) =>
        var pgid := shell.FgMasked(jid);
        place' := if pgid.None? then Prompt else Waking(pgid.value);
      case Woken(delivered) =>
        place' := if delivered then Waiting(place.pgid) else Prompt;
      case Bg(jid) =>
        var _ := shell.BgMasked(jid);
      case Look =>
        if shell.fgPgid != place.pgid {
          place' := Prompt;
        }
      case Sigchld(batch) =>
        shell.SigchldHandler(batch);
    }
  }

  /** Any run from the start: whatever the handler reaps and whenever it runs, the shell at its prompt
      has no job in the foreground. */
  method RunShell(actions: seq<Action>) returns (shell: Shell, place: Place)
    requires CanRun(START, actions)
    ensures shell.View() == Run(START, actions).table && place == Run(START, actions).place
    ensures place == Prompt ==> shell.fgPgid == 0
    ensures shell.fgPgid == 0 <==> Find(shell.jobs[..], InForeground).None?
  {
    hide Enabled, Next, Inv, Find;
    shell := new Shell();
    place := Prompt;
    ghost var s := START;
    assert actions[0..] == actions;
    for i := 0 to |actions|
      invariant shell.View() == s.table && place == s.place && fresh(shell) && fresh(shell.jobs)
      invariant CanRun(s, actions[i..]) && Run(s, actions[i..]) == Run(START, actions)
    {
      assert actions[i..][1..] == actions[i + 1..];
      place := Perform(shell, place, actions[i], s);
      s := Next(s, actions[i]);
    }
    ForegroundIsRight(actions);
  }
}
