/** `control_split_commands`: running the commands of a line, with short-circuit skips and a rolling
    pair of pipe descriptors. */
module Executor {
  import opened CStrings
  import opened CommandExplainer
  import opened LineGrammar
  import LineSplitter
  import opened Descriptors
  import opened WholeLine

  /** What happened to one command of the line. */
  datatype Record = Skipped | Entered(ret: int, view: Option<View>)

  /** The explained commands of a line, how they are linked, and how the system calls turn out. */
  datatype Job = Job(commands: seq<Explained>, linkages: seq<Linkage>, luck: seq<Luck>) {
    predicate Valid() {
      && |luck| == |commands|
      && |linkages| == (if commands == [] then 0 else |commands| - 1)
      && (forall c :: c in commands ==> OneOutput(c))
    }
  }

  // ----- What a run must do

  /** The value of `ret` after the commands recorded in `log`. */
  function Status(log: seq<Record>): int {
    if log == [] then 0
    else
      var r := log[|log| - 1];
      if r.Entered? then r.ret else Status(log[..|log| - 1])
  }

  predicate Skips(job: Job, log: seq<Record>)
    requires job.Valid() && |log| < |job.commands|
  {
    && log != []
    && (match job.linkages[|log| - 1]
        case And => Status(log) != 0
        case Or => Status(log) == 0
        case _ => false)
  }

  /** Does command `i` read from a pipe? Its left neighbour was entered, is linked to it by `|`, and
      the `pipe` call of that neighbour succeeded. */
  predicate Piped(job: Job, log: seq<Record>, i: nat)
    requires job.Valid() && i <= |log|
  {
    0 < i < |job.commands| && log[i - 1].Entered? && job.linkages[i - 1] == Pipe && job.luck[i - 1].pipe
  }

  /** Does command `i`, when entered, write to a pipe? */
  predicate Pipes(job: Job, i: nat)
    requires job.Valid() && i < |job.commands|
  {
    i + 1 < |job.commands| && job.linkages[i] == Pipe && job.luck[i].pipe
  }

  /** The record of the next command, the shell's own standard descriptors being `stdin` and `stdout`:
      while it starts, the only write end open in the shell is that of its own output pipe. */
  function Next(job: Job, log: seq<Record>, stdin: Open, stdout: Open): Record
    requires job.Valid() && |log| < |job.commands|
  {
    var i := |log|;
    if Skips(job, log) then Skipped
    else
      var c, luck := job.commands[i], job.luck[i];
      Entered(
        ReturnOf(c, luck),
        if !Called(c, luck) then None
        else Some(View(StdinOf(c, if Piped(job, log, i) then PipeRead(i - 1) else stdin),
                       StdoutOf(c, if Pipes(job, i) then PipeWrite(i) else stdout),
                       if Pipes(job, i) then {i} else {})))
  }

  function Log(job: Job, n: nat, stdin: Open, stdout: Open): (log: seq<Record>)
    requires job.Valid() && n <= |job.commands|
    ensures |log| == n
  {
    if n == 0 then []
    else
      var log := Log(job, n - 1, stdin, stdout);
      log + [Next(job, log, stdin, stdout)]
  }

  /** What the commands entered so far have left open in the shell. */
  function LineLeft(job: Job, log: seq<Record>, stdin: Open, stdout: Open): seq<Open>
    requires job.Valid() && |log| <= |job.commands|
  {
    if log == [] then []
    else
      var i := |log| - 1;
      LineLeft(job, log[..i], stdin, stdout) +
      if log[i].Entered?
      then Leftovers(job.commands[i], job.luck[i], Piped(job, log, i), Pipes(job, i), stdin, stdout) else []
  }

  /** Command `i` is connected as its line says: once called, it reads from a pipe exactly when it names
      no input file, its left neighbour was entered and linked to it by `|`, and the `pipe` call of that
      neighbour succeeded; the pipe is then the neighbour's, whose write end the shell no longer holds.
      It writes to a pipe exactly when the `|` after it got one and it names no output file. */
  predicate Connected(job: Job, log: seq<Record>, i: nat)
    requires job.Valid() && i < |log| <= |job.commands|
  {
    log[i].Entered? && log[i].view.Some? ==>
      var view, c := log[i].view.value, job.commands[i];
      && (PipeEnd(view.stdin) <==>
          && c.fileToRead.None? && 0 < i && log[i - 1].Entered?
          && job.linkages[i - 1] == Pipe && job.luck[i - 1].pipe)
      && (PipeEnd(view.stdin) ==> view.stdin == PipeRead(i - 1) && i - 1 !in view.writers)
      && (PipeEnd(view.stdout) <==> NoOutputFile(c) && Pipes(job, i))
      && (PipeEnd(view.stdout) ==> view.stdout == PipeWrite(i))
  }

  /** Command `i` is skipped exactly after `&&` when the status before it is not zero, and after `||` when
      it is zero; entered, it returns the status of its environment, or -1 exactly when it could not be
      started: a redirection failed inside the shell, or the `fork` outside it. */
  predicate Returned(job: Job, log: seq<Record>, i: nat)
    requires job.Valid() && i < |log| <= |job.commands|
  {
    var c, luck := job.commands[i], job.luck[i];
    && (log[i].Skipped? <==>
        && i > 0
        && (|| (job.linkages[i - 1] == And && Status(log[..i]) != 0)
            || (job.linkages[i - 1] == Or && Status(log[..i]) == 0)))
    && (log[i].Entered? && RunsInShell(Name(c)) ==> log[i].ret == if OpensSucceed(c, luck) then luck.status else -1)
    && (log[i].Entered? && !RunsInShell(Name(c)) ==> log[i].ret == if luck.fork then luck.status else -1)
    && (log[i].Entered? && log[i].view.Some? ==> log[i].ret == luck.status)
  }

  /** The commands that were entered have a name. */
  predicate Named(job: Job, log: seq<Record>)
    requires |log| <= |job.commands|
  {
    forall i :: 0 <= i < |log| && log[i].Entered? ==> job.commands[i].params != []
  }

  /** The shell itself stops at the next command: it is to be entered and has no name. */
  predicate Stops(job: Job, log: seq<Record>)
    requires job.Valid() && |log| < |job.commands|
  {
    !Skips(job, log) && job.commands[|log|].params == []
  }

  // ----- The run

  function Fd(fd: int): set<nat> { if fd < 0 then {} else {fd as nat} }

  ghost predicate NoPipeEnds(os: seq<Open>) { forall o :: o in os ==> !PipeEnd(o) }

  /** The descriptor table between two rounds of the loop: everything that was open before the line is
      untouched, of all the pipe ends ever made only the read end that command `i` is about to get is
      open, as descriptor `cur`, and besides that `left` is all there is. */
  ghost predicate Between(before: Table, t: Table, cur: int, i: nat, left: seq<Open>) {
    && Extends(before, t)
    && Leaves(before, t - Fd(cur), left)
    && (cur == -1 || (cur > 1 && cur in t && cur !in before && i > 0 && t[cur] == PipeRead(i - 1)))
    && (forall fd :: fd in t && PipeEnd(t[fd]) ==> fd == cur)
  }

  /** The table while a command runs: besides the read end it gets, both ends of its output pipe. */
  ghost predicate During(before: Table, t: Table, last: int, cur0: int, cur1: int, i: nat, left: seq<Open>) {
    && Extends(before, t)
    && Leaves(before, t - (Fd(last) + Fd(cur0) + Fd(cur1)), left)
    && (last == -1 || (last > 1 && last in t && last !in before && i > 0 && t[last] == PipeRead(i - 1)))
    && (cur0 == -1 <==> cur1 == -1)
    && (cur0 == -1 ||
        (&& cur0 > 1 && cur0 in t && cur0 !in before && t[cur0] == PipeRead(i)
         && cur1 > 1 && cur1 in t && cur1 !in before && t[cur1] == PipeWrite(i)
         && cur0 != last && cur1 != last && cur0 != cur1))
    && (forall fd :: fd in t && PipeEnd(t[fd]) ==> fd == last || fd == cur0 || fd == cur1)
  }

  lemma {:induction false} PipeMade(before: Table, t: Table, last: int, cur0: int, cur1: int, i: nat,
                                    left: seq<Open>, t': Table)
    requires 0 in before && 1 in before && Between(before, t, last, i, left)
    requires if cur0 == -1 then cur1 == -1 && t' == t
             else && cur0 >= 0 && cur1 >= 0 && cur0 != cur1 && cur0 !in t && cur1 !in t
                  && t' == t[cur0 as nat := PipeRead(i)][cur1 as nat := PipeWrite(i)]
    ensures During(before, t', last, cur0, cur1, i, left)
  {
    hide Leaves;
    assert t' - (Fd(last) + Fd(cur0) + Fd(cur1)) == t - Fd(last);
  }

  lemma {:induction false} WritersDuring(before: Table, t: Table, last: int, cur0: int, cur1: int, i: nat,
                                         left: seq<Open>)
    requires During(before, t, last, cur0, cur1, i, left)
    ensures Writers(t) == if cur1 == -1 then {} else {i}
  {
    hide Leaves;
    if cur1 != -1 {
      assert t[cur1].pipe in Writers(t);
    }
  }

  lemma {:induction false} CommandDone(before: Table, t: Table, t': Table, last: int, cur0: int, cur1: int, i: nat,
                                       left: seq<Open>, more: seq<Open>)
    requires During(before, t, last, cur0, cur1, i, left) && Leaves(t, t', more) && NoPipeEnds(more)
    ensures During(before, t', last, cur0, cur1, i, left + more)
  {
    hide Leaves;
    LeavesExtends(t, t', more);
    var ends := Fd(last) + Fd(cur0) + Fd(cur1);
    LeavesWithout(t, t', more, ends);
    LeavesBoth(before, t - ends, t' - ends, left, more);
  }

  lemma {:induction false} PipesClosed(before: Table, t: Table, t': Table, last: int, cur0: int, cur1: int, i: nat,
                                       left: seq<Open>)
    requires During(before, t, last, cur0, cur1, i, left)
    requires t' == t - Fd(cur1) - Fd(last)
    ensures Between(before, t', cur0, i + 1, left)
  {
    hide Leaves;
    assert t' - Fd(cur0) == t - (Fd(last) + Fd(cur0) + Fd(cur1));
  }

  lemma LeftoversNoPipe(c: Explained, luck: Luck, fed: bool, feeds: bool, stdin: Open, stdout: Open)
    requires !PipeEnd(stdin) && !PipeEnd(stdout)
    ensures NoPipeEnds(Leftovers(c, luck, fed, feeds, stdin, stdout))
  {
    hide RunsInShell, OpensSucceed;
  }

  /** One round that is not skipped. `last1` and `cur1` are the write ends the source keeps beside the
      read ends: the one of the previous pipe is always closed by now. */
  method EnterCommand(shell: Process, job: Job, i: nat, last0: int, last1: int,
                      ghost before: Table, ghost log: seq<Record>, ghost left: seq<Open>)
      returns (ret: int, view: Option<View>, cur0: int, cur1: int)
    requires job.Valid() && i == |log| < |job.commands| && !Skips(job, log) && job.commands[i].params != []
    requires 0 in before && 1 in before && !PipeEnd(before[0]) && !PipeEnd(before[1])
    requires Between(before, shell.table, last0, i, left) && (last0 == -1 <==> !Piped(job, log, i)) && last1 == -1
    modifies shell
    ensures Between(before, shell.table, cur0, i + 1,
                    left + Leftovers(job.commands[i], job.luck[i], Piped(job, log, i), Pipes(job, i),
                                     before[0], before[1]))
    ensures (cur0 == -1 <==> !Pipes(job, i)) && cur1 == -1
    ensures Entered(ret, view) == Next(job, log, before[0], before[1])
  {
    hide ReturnOf, Called, StdinOf, StdoutOf, Between, During, Extends, Skips, Writers, Leaves, Leftovers, NoPipeEnds,
         Wired, RunsInShell, OpensSucceed;
    var c := job.commands[i];
    assert c in job.commands;
    ghost var t := shell.table;
    cur0, cur1 := -1, -1;
    if i + 1 != |job.commands| {
      if job.linkages[i] == Pipe {
        cur0, cur1 := shell.MakePipe(i, job.luck[i].pipe);
      }
    }
    PipeMade(before, t, last0, cur0, cur1, i, left, shell.table);
    ghost var t1 := shell.table;
    Visible(before, t1, last0, cur0, cur1, i, left);
    WritersDuring(before, t1, last0, cur0, cur1, i, left);
    ret, view := shell.ControlCommand(c, last0, cur1, job.luck[i]);
    ghost var more := Leftovers(c, job.luck[i], last0 != -1, cur1 != -1, before[0], before[1]);
    LeftoversNoPipe(c, job.luck[i], last0 != -1, cur1 != -1, before[0], before[1]);
    CommandDone(before, t1, shell.table, last0, cur0, cur1, i, left, more);
    Visible(before, shell.table, last0, cur0, cur1, i, left + more);
    ghost var t2 := shell.table;
    if cur1 != -1 {
      shell.Close(cur1, PipeWrite(i));
    }
    assert last1 == -1;
    if last0 != -1 {
      shell.Close(last0, PipeRead(i - 1));
    }
    PipesClosed(before, t2, shell.table, last0, cur0, cur1, i, left + more);
    cur1 := -1;
  }

  lemma {:induction false} Visible(before: Table, t: Table, last: int, cur0: int, cur1: int, i: nat, left: seq<Open>)
    requires 0 in before && 1 in before && During(before, t, last, cur0, cur1, i, left)
    ensures 0 in t && 1 in t && t[0] == before[0] && t[1] == before[1]
    ensures last == -1 || (last > 1 && last in t && i > 0 && t[last] == PipeRead(i - 1))
    ensures cur1 == -1 || (cur1 > 1 && cur1 in t && t[cur1] == PipeWrite(i))
    ensures cur1 != -1 ==> cur1 != last
    ensures cur0 == -1 <==> cur1 == -1
  {
    hide Leaves;
  }

  /** For every line, every pattern of skips and every outcome of the system calls: the commands are
      entered or skipped, see descriptors and return as `Log` says, each connected as the line says; and
      when the line is done the descriptors open before refer to what they did, no pipe end is left
      open, and exactly the leftovers of the commands entered are new. The run ends early exactly at
      the first command that is to be entered and has no name: the source then compares a NULL name. */
  method Run(shell: Process, job: Job) returns (ret: int, log: seq<Record>)
    requires job.Valid()
    requires 0 in shell.table && 1 in shell.table
    requires forall fd :: fd in shell.table ==> !PipeEnd(shell.table[fd])
    modifies shell
    ensures |log| <= |job.commands| && log == Log(job, |log|, old(shell.table[0]), old(shell.table[1]))
    ensures Named(job, log) && (|log| < |job.commands| ==> Stops(job, log))
    ensures ret == Status(log)
    ensures forall i :: 0 <= i < |log| ==> Connected(job, log, i) && Returned(job, log, i)
    ensures |log| == |job.commands| ==>
              && Extends(old(shell.table), shell.table)
              && (forall fd :: fd in shell.table ==> !PipeEnd(shell.table[fd]))
              && Leaves(old(shell.table), shell.table, LineLeft(job, log, old(shell.table[0]), old(shell.table[1])))
  {
    hide Between, Extends, Next, Log, Status, Leaves, LineLeft, Leftovers, Connected, Returned;
    ret, log := 0, [];
    var cur0, cur1 := -1, -1;
    ghost var before := shell.table;
    Fresh(before);
    LogEmpty(job, before[0], before[1]);
    var n, i := |job.commands|, 0;
    while i < n
      invariant 0 <= i <= n
      invariant log == Log(job, i, before[0], before[1]) && ret == Status(log) && Named(job, log)
      invariant cur1 == -1 && (cur0 == -1 <==> !Piped(job, log, i))
      invariant Between(before, shell.table, cur0, i, LineLeft(job, log, before[0], before[1]))
    {
      LogStep(job, i, before[0], before[1]);
      NextReturns(job, log, before[0], before[1]);
      LeftStep(job, log, before[0], before[1]);
      if i != 0 {
        if ret != 0 && job.linkages[i - 1] == And {
          Unpiped(before, shell.table, cur0, i, LineLeft(job, log, before[0], before[1]));
          log := log + [Skipped];
          i := i + 1;
          continue;
        }
        if ret == 0 && job.linkages[i - 1] == Or {
          Unpiped(before, shell.table, cur0, i, LineLeft(job, log, before[0], before[1]));
          log := log + [Skipped];
          i := i + 1;
          continue;
        }
      }
      if job.commands[i].params == [] { break; }
      var view;
      ret, view, cur0, cur1 :=
        EnterCommand(shell, job, i, cur0, cur1, before, log, LineLeft(job, log, before[0], before[1]));
      log := log + [Entered(ret, view)];
      i := i + 1;
    }
    if i == n {
      AfterLast(before, shell.table, cur0, n, LineLeft(job, log, before[0], before[1]));
    }
    PipesConnect(job, i, before[0], before[1]);
    AllReturned(job, i, before[0], before[1]);
  }

  lemma {:induction false} LeftStep(job: Job, log: seq<Record>, stdin: Open, stdout: Open)
    requires job.Valid() && |log| < |job.commands|
    ensures LineLeft(job, log + [Skipped], stdin, stdout) == LineLeft(job, log, stdin, stdout)
    ensures forall ret, view ::
              LineLeft(job, log + [Entered(ret, view)], stdin, stdout) ==
              LineLeft(job, log, stdin, stdout) +
              Leftovers(job.commands[|log|], job.luck[|log|], Piped(job, log, |log|), Pipes(job, |log|), stdin, stdout)
  {
    hide Leftovers;
    assert (log + [Skipped])[..|log|] == log;
    forall ret, view
      ensures (log + [Entered(ret, view)])[..|log|] == log
      ensures Piped(job, log + [Entered(ret, view)], |log|) == Piped(job, log, |log|)
    {
    }
  }

  lemma {:induction false} LogStep(job: Job, i: nat, stdin: Open, stdout: Open)
    requires job.Valid() && i < |job.commands|
    ensures var log, more := Log(job, i, stdin, stdout), Log(job, i + 1, stdin, stdout);
            && more == log + [Next(job, log, stdin, stdout)]
            && Status(more) == match Next(job, log, stdin, stdout) case Skipped => Status(log) case Entered(r, _) => r
  {
    var log, more := Log(job, i, stdin, stdout), Log(job, i + 1, stdin, stdout);
    assert more[..i] == log;
  }

  lemma AfterLast(before: Table, t: Table, cur: int, i: nat, left: seq<Open>)
    requires cur == -1 && Between(before, t, cur, i, left)
    ensures Extends(before, t) && Leaves(before, t, left) && forall fd :: fd in t ==> !PipeEnd(t[fd])
  {
    hide Leaves;
    assert t - {} == t;
  }

  lemma LogEmpty(job: Job, stdin: Open, stdout: Open)
    requires job.Valid()
    ensures Log(job, 0, stdin, stdout) == [] && Status([]) == 0 && LineLeft(job, [], stdin, stdout) == []
  {
  }

  lemma Fresh(t: Table)
    requires forall fd :: fd in t ==> !PipeEnd(t[fd])
    ensures Between(t, t, -1, 0, [])
  {
  }

  lemma Unpiped(before: Table, t: Table, cur: int, i: nat, left: seq<Open>)
    requires cur == -1 && Between(before, t, cur, i, left)
    ensures Between(before, t, cur, i + 1, left)
  {
    hide Leaves;
  }

  // ----- What the records say

  lemma {:induction false} LogPrefix(job: Job, i: nat, n: nat, stdin: Open, stdout: Open)
    requires job.Valid() && i <= n <= |job.commands|
    ensures Log(job, n, stdin, stdout)[..i] == Log(job, i, stdin, stdout)
    decreases n
  {
    if i < n {
      LogPrefix(job, i, n - 1, stdin, stdout);
      assert Log(job, n, stdin, stdout)[..i] == Log(job, n - 1, stdin, stdout)[..i];
    } else {
      var log := Log(job, n, stdin, stdout);
      assert log[..n] == log;
    }
  }

  lemma {:induction false} LogAt(job: Job, i: nat, n: nat, stdin: Open, stdout: Open)
    requires job.Valid() && i < n <= |job.commands|
    ensures Log(job, n, stdin, stdout)[i] == Next(job, Log(job, i, stdin, stdout), stdin, stdout)
  {
    LogPrefix(job, i + 1, n, stdin, stdout);
    assert Log(job, n, stdin, stdout)[i] == Log(job, n, stdin, stdout)[..i + 1][i];
  }

  /** Every command of every run is connected as the line says. */
  lemma {:induction false} PipesConnect(job: Job, n: nat, stdin: Open, stdout: Open)
    requires job.Valid() && n <= |job.commands| && !PipeEnd(stdin) && !PipeEnd(stdout)
    ensures forall i :: 0 <= i < n ==> Connected(job, Log(job, n, stdin, stdout), i)
  {
    hide Log, Skips, ReturnOf, Called;
    var log := Log(job, n, stdin, stdout);
    forall i: nat | i < n
      ensures Connected(job, log, i)
    {
      LogAt(job, i, n, stdin, stdout);
      LogPrefix(job, i, n, stdin, stdout);
      assert i > 0 ==> log[i - 1] == log[..i][i - 1];
    }
  }

  /** Every command of every run is skipped, or returns, as its environment says. */
  lemma {:induction false} AllReturned(job: Job, n: nat, stdin: Open, stdout: Open)
    requires job.Valid() && n <= |job.commands|
    ensures forall i :: 0 <= i < n ==> Returned(job, Log(job, n, stdin, stdout), i)
  {
    hide Log, OpensSucceed, RunsInShell, Status, StdinOf, StdoutOf;
    var log := Log(job, n, stdin, stdout);
    forall i: nat | i < n
      ensures Returned(job, log, i)
    {
      LogAt(job, i, n, stdin, stdout);
      LogPrefix(job, i, n, stdin, stdout);
    }
  }

  // ----- The flat loop evaluates the left-nested tree of the line

  datatype Tree = Leaf(command: nat) | Node(left: Tree, link: Linkage, right: nat)

  function TreeOf(job: Job, n: nat): Tree
    requires job.Valid() && 0 < n <= |job.commands|
  {
    if n == 1 then Leaf(0) else Node(TreeOf(job, n - 1), job.linkages[n - 2], n - 1)
  }

  predicate InRange(t: Tree, job: Job) {
    match t
    case Leaf(i) => i < |job.commands|
    case Node(left, _, i) => InRange(left, job) && i < |job.commands|
  }

  /** The status the environment gives command `i`: its own, or -1 if it cannot be started. */
  function CommandReturn(job: Job, i: nat): int
    requires job.Valid() && i < |job.commands|
  {
    var c, luck := job.commands[i], job.luck[i];
    var starts := if RunsInShell(Name(c)) then OpensSucceed(c, luck) else luck.fork;
    if starts then luck.status else -1
  }

  /** The commands run, in order, and the status: `&&` and `||` keep the status of a side they skip. */
  function Eval(t: Tree, job: Job): (seq<nat>, int)
    requires job.Valid() && InRange(t, job)
  {
    match t
    case Leaf(i) => ([i], CommandReturn(job, i))
    case Node(left, link, i) =>
      var (ran, status) := Eval(left, job);
      if (link == And && status != 0) || (link == Or && status == 0) then (ran, status)
      else (ran + [i], CommandReturn(job, i))
  }

  function Ran(log: seq<Record>): seq<nat> {
    if log == [] then []
    else Ran(log[..|log| - 1]) + if log[|log| - 1].Entered? then [|log| - 1] else []
  }

  lemma NextReturns(job: Job, log: seq<Record>, stdin: Open, stdout: Open)
    requires job.Valid() && |log| < |job.commands|
    ensures var r := Next(job, log, stdin, stdout);
            if Skips(job, log) then r == Skipped else r.Entered? && r.ret == CommandReturn(job, |log|)
  {
  }

  /** For every line and every outcome of the system calls: the loop enters the same commands in the
      same order, and ends with the same status, as evaluating the left-nested tree. */
  lemma {:induction false} RefinesTree(job: Job, n: nat, stdin: Open, stdout: Open)
    requires job.Valid() && 0 < n <= |job.commands|
    ensures var log := Log(job, n, stdin, stdout);
            InRange(TreeOf(job, n), job) && Eval(TreeOf(job, n), job) == (Ran(log), Status(log))
  {
    hide Next, CommandReturn;
    var log, prior := Log(job, n, stdin, stdout), Log(job, n - 1, stdin, stdout);
    assert log[..n - 1] == prior;
    var r := Next(job, prior, stdin, stdout);
    NextReturns(job, prior, stdin, stdout);
    assert log[n - 1] == r;
    if n > 1 {
      RefinesTree(job, n - 1, stdin, stdout);
      assert TreeOf(job, n) == Node(TreeOf(job, n - 1), job.linkages[n - 2], n - 1);
      assert Ran(log) == if r.Entered? then Ran(prior) + [n - 1] else Ran(prior);
    } else {
      assert Ran(prior) == [];
      assert Ran(log) == [0];
    }
  }

  // ----- From the typed line to the final status

  /** How `control_split_commands` ends: the line is refused (status -1), the assertion in the explainer
      stops the shell before anything runs, a command without a name stops it after the commands of
      `log`, or every command has been run or skipped. */
  datatype LineResult = Refused | Aborted | Crashed(log: seq<Record>) | Finished(ret: int, log: seq<Record>)

  function Commands(r: ReadLine): seq<Explained>
    requires forall o :: o in r.outcomes ==> o.Built?
  {
    seq(|r.outcomes|, i requires 0 <= i < |r.outcomes| => r.outcomes[i].explained)
  }

  function JobOf(r: ReadLine, luck: seq<Luck>): Job
    requires forall o :: o in r.outcomes ==> o.Built?
  {
    Job(Commands(r), r.linkages, luck)
  }

  lemma {:induction false} ReadOneOutput(line: string)
    requires Read(line).Some?
    ensures var r := Read(line).value;
            && |r.linkages| == (if r.outcomes == [] then 0 else |r.outcomes| - 1)
            && forall o :: o in r.outcomes && o.Built? ==> OneOutput(o.explained)
  {
    hide Explain, LineSplitter.Split;
    LineSplitter.NormalForm(line);
    var commands := LineSplitter.Split(line).value.commands;
    forall o | o in ExplainAll(commands) && o.Built?
      ensures OneOutput(o.explained)
    {
      var i :| 0 <= i < |commands| && ExplainAll(commands)[i] == o;
      ExplainOneOutput(commands[i]);
    }
  }

  lemma ExplainOneOutput(s: string)
    ensures Explain(s).Built? ==> OneOutput(Explain(s).explained)
  {
    hide Params, InName, AfterOut, NameAt;
  }

  method ControlLine(shell: Process, line: string, luck: seq<Luck>) returns (r: LineResult)
    requires NulFree(line)
    requires Read(line).Some? ==> |luck| == |Read(line).value.outcomes|
    requires 0 in shell.table && 1 in shell.table
    requires forall fd :: fd in shell.table ==> !PipeEnd(shell.table[fd])
    modifies shell
    ensures r.Refused? <==> line != "" && !exists l: Line :: l.WellFormed() && l.Text() == line
    ensures r.Aborted? <==> Read(line).Some? && exists o :: o in Read(line).value.outcomes && o.AssertionFails?
    ensures r.Refused? || r.Aborted? ==> shell.table == old(shell.table)
    ensures r.Crashed? || r.Finished? ==> Read(line).Some? && forall o :: o in Read(line).value.outcomes ==> o.Built?
    ensures r.Crashed? || r.Finished? ==>
              var job := JobOf(Read(line).value, luck);
              && job.Valid() && |r.log| <= |job.commands|
              && r.log == Log(job, |r.log|, old(shell.table[0]), old(shell.table[1])) && Named(job, r.log)
              && (r.Crashed? <==> |r.log| < |job.commands|)
              && (r.Crashed? ==> Stops(job, r.log))
              && (forall i :: 0 <= i < |r.log| ==> Connected(job, r.log, i) && Returned(job, r.log, i))
    ensures r.Finished? ==>
              && r.ret == Status(r.log)
              && Extends(old(shell.table), shell.table)
              && (forall fd :: fd in shell.table ==> !PipeEnd(shell.table[fd]))
              && Leaves(old(shell.table), shell.table,
                        LineLeft(JobOf(Read(line).value, luck), r.log, old(shell.table[0]), old(shell.table[1])))
  {
    hide Explain, Log, Status, LineSplitter.Split, Leaves, LineLeft, Connected, Returned, Extends, Skips, Named;
    var read := ReadCommands(line);
    Derivable(line);
    if read.None? { return Refused; }
    ReadOneOutput(line);
    var outcomes := read.value.outcomes;
    if exists o :: o in outcomes && o.AssertionFails? { return Aborted; }
    var job := JobOf(read.value, luck);
    var ret, log := Run(shell, job);
    r := if |log| < |job.commands| then Crashed(log) else Finished(ret, log);
  }

  lemma {:induction false} Derivable(line: string)
    ensures Read(line).None? <==> line != "" && !exists l: Line :: l.WellFormed() && l.Text() == line
  {
    ParseSound(line);
    forall l: Line | l.WellFormed() && l.Text() == line
      ensures Parse(line).Some?
    {
      ParseComplete(l);
    }
  }
}
