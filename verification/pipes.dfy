/** The descriptor tables of the processes of a pipeline. */
module Pipes {
  /** What a descriptor is open on: something the shell was started with, or an end of a pipe that it made. */
  datatype End = Inherited(n: nat) | ReadEnd(pipe: nat) | WriteEnd(pipe: nat)

  type FdTable = map<nat, End>

  const STDIN_FILENO := 0
  const STDOUT_FILENO := 1

  /** The descriptor that the kernel gives out next. */
  function LowestFree(t: FdTable, from: nat): (fd: nat)
    ensures fd !in t && from <= fd && forall k :: from <= k < fd ==> k in t
    decreases |set k | k in t && k >= from|
  {
    if from !in t then from
    else
      FewerLeft(t, from);
      LowestFree(t, from + 1)
  }

  lemma FewerLeft(t: FdTable, n: nat)
    requires n in t
    ensures |set k | k in t && k >= n + 1| < |set k | k in t && k >= n|
  {
    var a, b := set k | k in t && k >= n + 1, set k | k in t && k >= n;
    assert b == a + {n};
  }

  /** `pipe`. */
  function Pipe(t: FdTable, id: nat): (r: (FdTable, nat, nat)) {
    var fd0 := LowestFree(t, 0);
    var fd1 := LowestFree(t[fd0 := ReadEnd(id)], 0);
    (t[fd0 := ReadEnd(id)][fd1 := WriteEnd(id)], fd0, fd1)
  }

  function Dup2(t: FdTable, old_: nat, new_: nat): FdTable
    requires old_ in t
  {
    t[new_ := t[old_]]
  }

  function Close(t: FdTable, fd: nat): FdTable {
    t - {fd}
  }

  /** The table of stage `k` of `n`, when the pipes are numbered from `id` on. */
  function Stage(base: FdTable, id: nat, k: nat, n: nat): FdTable
    requires k < n
  {
    var t := if k > 0 then base[STDIN_FILENO := ReadEnd(id + k - 1)] else base;
    if k < n - 1 then t[STDOUT_FILENO := WriteEnd(id + k)] else t
  }

  /** The tables of all the stages. */
  ghost function Stages(base: FdTable, id: nat, n: nat): (s: seq<FdTable>)
    ensures |s| == n && forall k :: 0 <= k < n ==> s[k] == Stage(base, id, k, n)
  {
    seq(n, k requires 0 <= k < n => Stage(base, id, k, n))
  }

  /** What the child makes of the table that it inherits; -1 stands for no descriptor. */
  ghost function ChildTable(table: FdTable, prevRead: int, last: bool, fd0: nat, fd1: nat): FdTable
    requires prevRead >= 0 ==> prevRead in table
    requires !last ==> fd1 in table
  {
    var t0 := if prevRead >= 0 then table[STDIN_FILENO := table[prevRead]] else table;
    var t1 := if last then t0 else t0[STDOUT_FILENO := table[fd1]];
    var t2 := if prevRead >= 0 then t1 - {prevRead} else t1;
    if last then t2 else t2 - {fd0} - {fd1}
  }

  /** The child's part of one iteration in `launch_pipeline`. */
  method ChildOfLoop(table: FdTable, prevRead: int, last: bool, fd0: nat, fd1: nat) returns (t: FdTable)
    requires prevRead >= 0 ==> prevRead in table
    requires !last ==> fd1 in table && prevRead != fd0 && prevRead != fd1
    requires prevRead == -1 || prevRead > 1
    requires !last ==> fd0 > 1 && fd1 > 1 && fd0 != fd1
    ensures t == ChildTable(table, prevRead, last, fd0, fd1)
  {
    t := table;
    if prevRead != -1 {
      t := Dup2(t, prevRead, STDIN_FILENO);
    }
    if !last {
      t := Dup2(t, fd1, STDOUT_FILENO);
    }
    if prevRead != -1 {
      t := Close(t, prevRead);
    }
    if !last {
      t := Close(t, fd0);
      t := Close(t, fd1);
    }
  }

  /** The shell's table when stage `i` is next: the read end of the last pipe is open. */
  ghost predicate Between(base: FdTable, id: nat, i: nat, n: nat, prevRead: int, table: FdTable) {
    if i == 0 || i == n then prevRead == -1 && table == base
    else prevRead > 1 && prevRead !in base && table == base[prevRead := ReadEnd(id + i - 1)]
  }

  /** The last stage: the child reads from the last pipe, and the shell closes it. */
  lemma LastStage(base: FdTable, id: nat, i: nat, n: nat, prevRead: int, table: FdTable)
    requires 0 in base && 1 in base && Between(base, id, i, n, prevRead, table) && i + 1 == n
    ensures prevRead == -1 || (prevRead > 1 && prevRead in table)
    ensures ChildTable(table, prevRead, true, 0, 0) == Stage(base, id, i, n)
    ensures Between(base, id, n, n, -1, if prevRead == -1 then table else Close(table, prevRead))
  {
  }

  /** Any other stage: the child also writes to the new pipe, and the shell keeps its read end. */
  lemma OtherStage(base: FdTable, id: nat, i: nat, n: nat, prevRead: int, table: FdTable)
    requires 0 in base && 1 in base && Between(base, id, i, n, prevRead, table) && i + 1 < n
    ensures prevRead == -1 || (prevRead > 1 && prevRead in table)
    ensures var (t, fd0, fd1) := Pipe(table, id + i);
            && fd0 > 1 && fd1 > 1 && fd0 != fd1 && prevRead != fd0 && prevRead != fd1
            && fd1 in t && table.Keys <= t.Keys
            && ChildTable(t, prevRead, false, fd0, fd1) == Stage(base, id, i, n)
            && Between(base, id, i + 1, n, fd0, Close(if prevRead == -1 then t else Close(t, prevRead), fd1))
  {
  }

  /** The loop of `launch_pipeline`: the tables of the children when they call `execvp`, and the shell's own. */
  method LaunchPipeline(base: FdTable, id: nat, nseg: nat) returns (children: seq<FdTable>, table: FdTable)
    requires 0 in base && 1 in base
    ensures children == Stages(base, id, nseg) && table == base
  {
    hide ChildTable, Stage, Pipe, Close;
    children, table := [], base;
    var prevRead: int := -1;
    for i := 0 to nseg
      invariant |children| == i && forall k :: 0 <= k < i ==> children[k] == Stage(base, id, k, nseg)
      invariant Between(base, id, i, nseg, prevRead, table)
    {
      var last := i == nseg - 1;
      if last {
        LastStage(base, id, i, nseg, prevRead, table);
      } else {
        OtherStage(base, id, i, nseg, prevRead, table);
      }
      var fd0, fd1 := 0, 0;
      if !last {
        var p := Pipe(table, id + i);
        table, fd0, fd1 := p.0, p.1, p.2;
      }
      var child := ChildOfLoop(table, prevRead, last, fd0, fd1);
      children := children + [child];
      if prevRead != -1 {
        table := Close(table, prevRead);
      }
      if !last {
        table := Close(table, fd1);
        prevRead := fd0;
      } else {
        prevRead := -1;
      }
    }
  }

  /** Phase 2's `run_pipe`: the tables of the stages when they call `execvp`, and the caller's own at the end.
      Every process but the first stage's runs the rest of the pipeline from its own table. */
  method RunPipe(base: FdTable, id: nat, numCmds: nat) returns (stages: seq<FdTable>, table: FdTable)
    requires 0 in base && 1 in base
    ensures stages == Stages(base, id, numCmds) && table == base
    decreases numCmds
  {
    table := base;
    if numCmds == 0 {
      return [], table;
    }
    if numCmds == 1 {
      return [table], table;
    }
    var p := Pipe(table, id);
    var fd0, fd1 := p.1, p.2;
    table := p.0;
    var left := Dup2(table, fd1, STDOUT_FILENO);
    left := Close(left, fd0);
    left := Close(left, fd1);
    var right := Dup2(table, fd0, STDIN_FILENO);
    right := Close(right, fd0);
    right := Close(right, fd1);
    assert left == Stage(base, id, 0, numCmds);
    assert right == base[STDIN_FILENO := ReadEnd(id)];
    var rest, _ := RunPipe(right, id + 1, numCmds - 1);
    stages := [left] + rest;
    forall k | 0 <= k < numCmds
      ensures stages[k] == Stage(base, id, k, numCmds)
    {
      if k > 0 {
        assert stages[k] == Stage(right, id + 1, k - 1, numCmds - 1);
      }
    }
    table := Close(table, fd0);
    table := Close(table, fd1);
  }

  /** Every stage has exactly the descriptors of the shell: standard output is the write end of its own pipe, except in
      the last stage; standard input is the read end of the pipe before it, except in the first; the others are the
      shell's. */
  lemma StagesAreConnected(base: FdTable, id: nat, n: nat, k: nat)
    requires 0 in base && 1 in base && k < n
    ensures var t := Stages(base, id, n)[k];
            && t.Keys == base.Keys
            && t[1] == (if k < n - 1 then WriteEnd(id + k) else base[1])
            && t[0] == (if k > 0 then ReadEnd(id + k - 1) else base[0])
            && forall fd :: fd in base && fd > 1 ==> t[fd] == base[fd]
  {
    var t := Stages(base, id, n)[k];
    assert t == Stage(base, id, k, n);
    assert forall fd :: fd in t <==> fd in base;
  }

  /** The write end of a pipe is open only in its stage, as standard output, and the read end only in the next
      stage, as standard input. */
  lemma EndsAreWhereTheyBelong(base: FdTable, id: nat, n: nat, k: nat, fd: nat, pipe: nat)
    requires 0 in base && 1 in base && k < n && (forall f :: f in base ==> base[f].Inherited?)
    requires fd in Stages(base, id, n)[k]
    ensures var end := Stages(base, id, n)[k][fd];
            && (end == WriteEnd(pipe) <==> fd == STDOUT_FILENO && k < n - 1 && pipe == id + k)
            && (end == ReadEnd(pipe) <==> fd == STDIN_FILENO && k > 0 && pipe == id + k - 1)
            && (end.Inherited? ==> fd in base && end == base[fd])
  {
    assert Stages(base, id, n)[k] == Stage(base, id, k, n);
  }
}
