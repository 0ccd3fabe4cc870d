/** The descriptor table of the shell process, and `control_command`: redirecting the standard
    descriptors around one command and putting them back. */
module Descriptors {
  import opened CStrings
  import opened CommandExplainer

  /** Open file descriptions. Pipe `k` stands between commands `k` and `k + 1` of the line. */
  datatype Open =
    | Inherited(id: nat)
    | InputFile(name: string)
    | OutputFile(name: string, append: bool)
    | PipeRead(pipe: nat)
    | PipeWrite(pipe: nat)

  type Table = map<nat, Open>

  predicate PipeEnd(o: Open) { o.PipeRead? || o.PipeWrite? }

  /** How the calls into the system turn out for one command. */
  datatype Luck = Luck(fork: bool, append: bool, overwrite: bool, read: bool, pipe: bool, status: int)

  /** What a command finds when its function is called: its standard descriptors, and the pipes whose
      write end is open in the shell at that moment. */
  datatype View = View(stdin: Open, stdout: Open, writers: set<nat>)

  // ----- Which commands need a process of their own

  const COMMAND_NAMES: seq<string> :=
    ["./", "?", "cd", "pwd", "exit", "ulimit", "nice", "kill", "type", "echo", "export", "execute_from_PATH"]
  const NEEDS_FORK: seq<bool> :=
    [true, false, false, false, false, false, true, false, false, false, false, true]

  /** The built-ins that run inside the shell. */
  predicate RunsInShell(name: string) {
    name in {"?", "cd", "pwd", "exit", "ulimit", "kill", "type", "echo", "export"}
  }

  method FindCommandNameIndex(name: string) returns (i: nat)
    ensures i < |COMMAND_NAMES|
    ensures if name in COMMAND_NAMES then COMMAND_NAMES[i] == name else i == |COMMAND_NAMES| - 1
  {
    i := 0;
    while i < |COMMAND_NAMES|
      invariant 0 <= i <= |COMMAND_NAMES| && name !in COMMAND_NAMES[..i]
    {
      if COMMAND_NAMES[i] == name { return i; }
      i := i + 1;
    }
    return i - 1;
  }

  method NeedsFork(name: string) returns (fork: bool)
    ensures fork <==> !RunsInShell(name)
  {
    var i := FindCommandNameIndex(name);
    fork := NEEDS_FORK[i];
  }

  // ----- What one command sees and returns

  /** The explainer never asks for both kinds of output. */
  predicate OneOutput(c: Explained) { c.fileToAppend.None? || c.fileToOverwrite.None? }

  predicate OpensSucceed(c: Explained, luck: Luck) {
    && (c.fileToAppend.Some? ==> luck.append)
    && (c.fileToOverwrite.Some? ==> luck.overwrite)
    && (c.fileToRead.Some? ==> luck.read)
  }

  function StdinOf(c: Explained, piped: Open): Open {
    if c.fileToRead.Some? then InputFile(c.fileToRead.value) else piped
  }

  function StdoutOf(c: Explained, piped: Open): Open {
    if c.fileToOverwrite.Some? then OutputFile(c.fileToOverwrite.value, false)
    else if c.fileToAppend.Some? then OutputFile(c.fileToAppend.value, true)
    else piped
  }

  /** The first word; a command without one is never entered. */
  function Name(c: Explained): string { if c.params == [] then "" else c.params[0] }

  /** The status of an entered command. */
  function ReturnOf(c: Explained, luck: Luck): int {
    if RunsInShell(Name(c)) then (if OpensSucceed(c, luck) then luck.status else -1)
    else if luck.fork then luck.status else -1
  }

  /** Is the function of an entered command called at all? */
  predicate Called(c: Explained, luck: Luck) {
    OpensSucceed(c, luck) && (RunsInShell(Name(c)) || luck.fork)
  }

  /** The output file that stays open when a later open fails. */
  function OpenedOutput(c: Explained, luck: Luck): seq<Open> {
    if c.fileToAppend.Some? && luck.append then [OutputFile(c.fileToAppend.value, true)]
    else if c.fileToOverwrite.Some? && luck.overwrite then [OutputFile(c.fileToOverwrite.value, false)]
    else []
  }

  /** What a command run inside the shell leaves open: copies of the standard descriptors it redirected,
      or the output file if the open after it fails. */
  function LeftInShell(c: Explained, luck: Luck, fed: bool, feeds: bool, stdin: Open, stdout: Open): seq<Open> {
    if !OpensSucceed(c, luck) then OpenedOutput(c, luck)
    else (if fed || c.fileToRead.Some? then [stdin] else []) + (if feeds || !NoOutputFile(c) then [stdout] else [])
  }

  /** What any command leaves open in the shell; `fed` and `feeds` say whether it gets pipe ends. */
  function Leftovers(c: Explained, luck: Luck, fed: bool, feeds: bool, stdin: Open, stdout: Open): seq<Open> {
    if RunsInShell(Name(c)) then LeftInShell(c, luck, fed, feeds, stdin, stdout) else []
  }

  /** `after` is `before` with one new descriptor for each of `what`, and nothing else. */
  ghost predicate Leaves(before: Table, after: Table, what: seq<Open>)
    decreases |what|
  {
    if what == [] then after == before
    else exists fd: nat :: fd !in before && Leaves(before[fd := what[0]], after, what[1..])
  }

  ghost function Writers(t: Table): set<nat> {
    set fd | fd in t && t[fd].PipeWrite? :: t[fd].pipe
  }

  // ----- System calls on the table

  lemma {:induction false} Pigeonhole(keys: set<nat>, n: nat)
    requires forall i: nat :: i < n ==> i in keys
    ensures n <= |keys|
  {
    if n > 0 {
      var rest := keys - {n - 1};
      assert forall i: nat :: i < n - 1 ==> i in rest;
      Pigeonhole(rest, n - 1);
    }
  }

  class Process {
    var table: Table

    constructor (t: Table)
      ensures table == t
    {
      table := t;
    }

    /** The lowest descriptor not in use, as `open`, `dup` and `pipe` choose it. */
    method LowestFree() returns (fd: nat)
      ensures fd !in table && forall i: nat :: i < fd ==> i in table
    {
      fd := 0;
      while fd in table
        invariant forall i: nat :: i < fd ==> i in table
        decreases |table| + 1 - fd
      {
        fd := fd + 1;
        Pigeonhole(table.Keys, fd);
      }
    }

    method Allocate(o: Open) returns (fd: nat)
      modifies this
      ensures fd !in old(table) && table == old(table)[fd := o]
    {
      fd := LowestFree();
      table := table[fd := o];
    }

    method OpenFile(o: Open, ok: bool) returns (fd: int)
      modifies this
      ensures !ok ==> fd == -1 && table == old(table)
      ensures ok ==> fd >= 0 && fd !in old(table) && table == old(table)[fd := o]
    {
      if !ok { return -1; }
      fd := Allocate(o);
    }

    method Dup(from: nat) returns (fd: nat)
      requires from in table
      modifies this
      ensures fd !in old(table) && table == old(table)[fd := old(table)[from]]
    {
      fd := Allocate(table[from]);
    }

    method Dup2(from: nat, to: nat)
      requires from in table
      modifies this
      ensures table == old(table)[to := old(table)[from]]
    {
      table := table[to := table[from]];
    }

    /** Closing is only ever asked for an open descriptor, and `what` is what it refers to. */
    method Close(fd: nat, ghost what: Open)
      requires fd in table && table[fd] == what
      modifies this
      ensures table == old(table) - {fd}
    {
      table := table - {fd};
    }

    method MakePipe(id: nat, ok: bool) returns (r: int, w: int)
      modifies this
      ensures !ok ==> r == w == -1 && table == old(table)
      ensures ok ==> r >= 0 && w >= 0 && r != w && r !in old(table) && w !in old(table)
      ensures ok ==> table == old(table)[r := PipeRead(id)][w := PipeWrite(id)]
    {
      if !ok { return -1, -1; }
      r := Allocate(PipeRead(id));
      w := Allocate(PipeWrite(id));
    }

    // ----- control_command

    /** The three opens, in the order of the source; on a failure the earlier ones stay open. */
    method OpenFiles(c: Explained, last: int, cur: int, luck: Luck) returns (input: int, output: int, ok: bool)
      requires OneOutput(c)
      requires last == -1 || (last >= 0 && last in table)
      requires cur == -1 || (cur >= 0 && cur in table)
      modifies this
      ensures ok <==> OpensSucceed(c, luck)
      ensures !ok <==> || (c.fileToAppend.Some? && !luck.append)
                       || (c.fileToOverwrite.Some? && !luck.overwrite)
                       || (c.fileToRead.Some? && !luck.read)
      ensures Extends(old(table), table)
      ensures !ok ==> Leaves(old(table), table, OpenedOutput(c, luck))
      ensures ok ==> Opened(old(table), table, c, last, cur, input, output)
    {
      input, output, ok := last, cur, false;
      if c.fileToAppend.Some? {
        output := OpenFile(OutputFile(c.fileToAppend.value, true), luck.append);
        if output == -1 { LeavesNone(old(table)); return; }
      }
      if c.fileToOverwrite.Some? {
        output := OpenFile(OutputFile(c.fileToOverwrite.value, false), luck.overwrite);
        if output == -1 { LeavesNone(old(table)); return; }
      }
      if c.fileToRead.Some? {
        ghost var t := table;
        input := OpenFile(InputFile(c.fileToRead.value), luck.read);
        if input == -1 {
          LeavesFiles(old(table), t, c, luck, output);
          return;
        }
      }
      ok := true;
    }

    method Redirect(fd: int, std: nat) returns (save: int)
      requires std in table && (fd == -1 || (fd >= 0 && fd in table && fd != std))
      modifies this
      ensures if fd == -1 then save == -1 else save >= 0 && save !in old(table)
      ensures table == Redirecting(old(table), fd, std, save)
    {
      save := -1;
      if fd != -1 {
        save := Dup(std);
        Dup2(fd, std);
      }
    }

    method Restore(fd: int, std: nat, save: int, file: bool)
      requires Restorable(table, fd, std, save, file)
      modifies this
      ensures table == Restoring(old(table), fd, std, save, file)
    {
      if fd != -1 {
        Close(std, table[std]);
        Dup2(save, std);
      }
      if file {
        Close(fd, table[fd]);
      }
    }

    /** A command run inside the shell. On every path the descriptors that were open refer to what they
        did before, pipe ends included; if all opens succeed, the saved copies of the redirected
        standard descriptors are all that is left behind. */
    method Invoke(c: Explained, last: int, cur: int, luck: Luck)
        returns (ret: int, called: bool, stdin: Open, stdout: Open, inSave: int, outSave: int)
      requires OneOutput(c) && 0 in table && 1 in table
      requires last == -1 || (last > 1 && last in table)
      requires cur == -1 || (cur > 1 && cur in table)
      modifies this
      ensures Extends(old(table), table)
      ensures called <==> OpensSucceed(c, luck)
      ensures !called ==> ret == -1
      ensures Leaves(old(table), table, LeftInShell(c, luck, last != -1, cur != -1, old(table)[0], old(table)[1]))
      ensures called ==>
                && ret == luck.status
                && stdin == StdinOf(c, Seen(old(table), last, 0))
                && stdout == StdoutOf(c, Seen(old(table), cur, 1))
                && (if last == -1 && c.fileToRead.None? then inSave == -1 else inSave >= 0 && inSave !in old(table))
                && (if cur == -1 && NoOutputFile(c) then outSave == -1 else outSave >= 0 && outSave !in old(table))
                && table == Leaving(old(table), inSave, outSave)
    {
      hide Redirecting, Restoring, Restorable, Leaving, Opened, StdinOf, StdoutOf, Extends, Seen, Leaves, OpensSucceed;
      ghost var t := table;
      ret, called, inSave, outSave, stdin, stdout := -1, false, -1, -1, table[0], table[1];
      var input, output, ok := OpenFiles(c, last, cur, luck);
      if !ok { return; }
      ghost var t1 := table;
      OpenedDescriptors(t, t1, c, last, cur, input, output);
      inSave := Redirect(input, 0);
      ghost var t2 := table;
      AfterRedirect(t1, t2, input, inSave, output);
      outSave := Redirect(output, 1);
      ghost var t3 := table;
      RedirectBoth(t, t1, t3, c, last, cur, input, output, inSave, outSave);
      ret, called, stdin, stdout := luck.status, true, table[0], table[1];
      Restore(input, 0, inSave, c.fileToRead.Some?);
      Restore(output, 1, outSave, !NoOutputFile(c));
      SavesLeft(t, inSave, outSave);
    }

    /** One command, in a process of its own or in the shell. */
    method ControlCommand(c: Explained, last: int, cur: int, luck: Luck) returns (ret: int, view: Option<View>)
      requires c.params != [] && OneOutput(c)
      requires 0 in table && 1 in table
      requires last == -1 || (last > 1 && last in table)
      requires cur == -1 || (cur > 1 && cur in table)
      modifies this
      ensures Extends(old(table), table)
      ensures Leaves(old(table), table, Leftovers(c, luck, last != -1, cur != -1, old(table)[0], old(table)[1]))
      ensures ret == ReturnOf(c, luck)
      ensures ret == if RunsInShell(c.params[0])
                     then (if OpensSucceed(c, luck) then luck.status else -1)
                     else (if luck.fork then luck.status else -1)
      ensures !RunsInShell(c.params[0]) ==> table == old(table)
      ensures RunsInShell(c.params[0]) && OpensSucceed(c, luck) ==>
                |table| == |old(table)| + (if last != -1 || c.fileToRead.Some? then 1 else 0)
                           + (if cur != -1 || c.fileToOverwrite.Some? || c.fileToAppend.Some? then 1 else 0)
      ensures view.Some? <==> OpensSucceed(c, luck) && (RunsInShell(c.params[0]) || luck.fork)
      ensures view.Some? ==> Wired(c, view.value, Seen(old(table), last, 0), Seen(old(table), cur, 1))
      ensures view == if !Called(c, luck) then None
                      else Some(View(StdinOf(c, Seen(old(table), last, 0)), StdoutOf(c, Seen(old(table), cur, 1)),
                                     Writers(old(table))))
    {
      hide StdinOf, StdoutOf, OpensSucceed, RunsInShell, Leaves, Wired;
      ghost var t := table;
      LeavesNone(table);
      AsWired(c, Seen(table, last, 0), Seen(table, cur, 1));
      view := None;
      var writers := set fd | fd in table && table[fd].PipeWrite? :: table[fd].pipe;
      var fork := NeedsFork(c.params[0]);
      if fork {
        if !luck.fork { return -1, None; }
        var child := new Process(table);
        var _, called, stdin, stdout, _, _ := child.Invoke(c, last, cur, luck);
        ret := luck.status;
        if called { view := Some(View(stdin, stdout, writers)); }
      } else {
        var called, stdin, stdout, inSave, outSave;
        ret, called, stdin, stdout, inSave, outSave := Invoke(c, last, cur, luck);
        LeavesCount(t, table, LeftInShell(c, luck, last != -1, cur != -1, t[0], t[1]));
        if called { view := Some(View(stdin, stdout, writers)); }
      }
    }
  }

  /** The standard descriptors of a command that is called: a named input is read, `>` truncates and `>>`
      appends, and otherwise it has what it was given. */
  predicate Wired(c: Explained, view: View, given0: Open, given1: Open) {
    && (c.fileToRead.Some? ==> view.stdin == InputFile(c.fileToRead.value))
    && (c.fileToRead.None? ==> view.stdin == given0)
    && (c.fileToOverwrite.Some? ==> view.stdout == OutputFile(c.fileToOverwrite.value, false))
    && (c.fileToAppend.Some? ==> view.stdout == OutputFile(c.fileToAppend.value, true))
    && (c.fileToOverwrite.None? && c.fileToAppend.None? ==> view.stdout == given1)
  }

  lemma AsWired(c: Explained, given0: Open, given1: Open)
    requires OneOutput(c)
    ensures forall writers :: Wired(c, View(StdinOf(c, given0), StdoutOf(c, given1), writers), given0, given1)
  {
  }

  predicate NoOutputFile(c: Explained) { c.fileToAppend.None? && c.fileToOverwrite.None? }

  /** `save = dup(std), dup2(fd, std)`. */
  ghost function Redirecting(t: Table, fd: int, std: nat, save: int): Table
    requires fd == -1 || (fd >= 0 && fd in t && save >= 0 && std in t)
  {
    if fd == -1 then t else t[save as nat := t[std]][std := t[fd]]
  }

  ghost predicate Restorable(t: Table, fd: int, std: nat, save: int, file: bool) {
    && (file ==> fd != -1)
    && (fd != -1 ==>
          && fd >= 0 && save >= 0
          && std in t && fd in t && save in t
          && fd != std && save != std && save != fd)
  }

  /** `close(std); dup2(save, std)`, and `close(fd)` if it is a file. */
  ghost function Restoring(t: Table, fd: int, std: nat, save: int, file: bool): Table
    requires Restorable(t, fd, std, save, file)
  {
    if fd == -1 then t else t[std := t[save]] - (if file then {fd} else {})
  }

  lemma {:induction false} OpenedDescriptors(t: Table, t1: Table, c: Explained, last: int, cur: int,
                                             input: int, output: int)
    requires 0 in t && 1 in t && Extends(t, t1) && Opened(t, t1, c, last, cur, input, output)
    requires last == -1 || (last > 1 && last in t)
    requires cur == -1 || (cur > 1 && cur in t)
    ensures 0 in t1 && 1 in t1
    ensures input == -1 || (input > 1 && input in t1)
    ensures output == -1 || (output > 1 && output in t1)
    ensures input == -1 <==> last == -1 && c.fileToRead.None?
    ensures output == -1 <==> cur == -1 && NoOutputFile(c)
  {
  }

  lemma {:induction false} AfterRedirect(t1: Table, t2: Table, input: int, inSave: int, output: int)
    requires 0 in t1 && 1 in t1 && (input == -1 || (input > 1 && input in t1 && inSave >= 0))
    requires t2 == Redirecting(t1, input, 0, inSave)
    requires output == -1 || (output > 1 && output in t1)
    ensures 1 in t2 && (output != -1 ==> output in t2) && t1.Keys <= t2.Keys
    ensures input != -1 ==> inSave in t2
  {
  }

  /** Both redirections taken together: what the command sees, and what undoing them leaves. */
  lemma {:induction false} RedirectBoth(t: Table, t1: Table, t3: Table, c: Explained, last: int, cur: int,
                                        input: int, output: int, inSave: int, outSave: int)
    requires 0 in t && 1 in t && Extends(t, t1) && Opened(t, t1, c, last, cur, input, output)
    requires last == -1 || (last > 1 && last in t)
    requires cur == -1 || (cur > 1 && cur in t)
    requires input == -1 || (input > 1 && input in t1)
    requires output == -1 || (output > 1 && output in t1)
    requires if input == -1 then inSave == -1 else inSave >= 0 && inSave !in t1
    requires if output == -1 then outSave == -1 else outSave >= 0 && outSave !in t1 && outSave != inSave
    requires 0 in t1 && 1 in t1 && t3 == Redirecting(Redirecting(t1, input, 0, inSave), output, 1, outSave)
    ensures 0 in t3 && 1 in t3
    ensures t3[0] == StdinOf(c, Seen(t, last, 0)) && t3[1] == StdoutOf(c, Seen(t, cur, 1))
    ensures Restorable(t3, input, 0, inSave, c.fileToRead.Some?)
    ensures var t4 := Restoring(t3, input, 0, inSave, c.fileToRead.Some?);
            && Restorable(t4, output, 1, outSave, !NoOutputFile(c))
            && Restoring(t4, output, 1, outSave, !NoOutputFile(c)) == Leaving(t, inSave, outSave)
    ensures Extends(t, Leaving(t, inSave, outSave))
    ensures inSave == -1 || inSave !in t
    ensures outSave == -1 || outSave !in t
  {
    var t4 := Restoring(t3, input, 0, inSave, c.fileToRead.Some?);
    var t5 := Restoring(t4, output, 1, outSave, !NoOutputFile(c));
    assert t5 == Leaving(t, inSave, outSave);
  }

  // ----- What is left open

  lemma LeavesNone(t: Table)
    ensures Leaves(t, t, [])
  {
  }

  lemma {:induction false} LeavesCount(t: Table, u: Table, what: seq<Open>)
    requires Leaves(t, u, what)
    ensures |u| == |t| + |what|
    decreases |what|
  {
    if what != [] {
      var fd: nat :| fd !in t && Leaves(t[fd := what[0]], u, what[1..]);
      LeavesCount(t[fd := what[0]], u, what[1..]);
      assert t[fd := what[0]].Keys == t.Keys + {fd};
      assert |t[fd := what[0]]| == |t.Keys + {fd}|;
    }
  }

  lemma {:induction false} LeavesOne(t: Table, fd: nat, o: Open)
    requires fd !in t
    ensures Leaves(t, t[fd := o], [o])
  {
    assert Leaves(t[fd := o], t[fd := o], [o][1..]);
  }

  lemma {:induction false} LeavesFiles(t: Table, t1: Table, c: Explained, luck: Luck, output: int)
    requires OneOutput(c)
    requires c.fileToAppend.Some? ==> luck.append
    requires c.fileToOverwrite.Some? ==> luck.overwrite
    requires if NoOutputFile(c) then t1 == t
             else output >= 0 && output !in t && t1 == t[output as nat := StdoutOf(c, Inherited(0))]
    ensures Leaves(t, t1, OpenedOutput(c, luck))
  {
    if !NoOutputFile(c) {
      LeavesOne(t, output, StdoutOf(c, Inherited(0)));
    }
  }

  lemma {:induction false} LeavesBoth(t: Table, u: Table, v: Table, some: seq<Open>, more: seq<Open>)
    requires Leaves(t, u, some) && Leaves(u, v, more)
    ensures Leaves(t, v, some + more)
    decreases |some|
  {
    if some == [] {
      assert some + more == more;
    } else {
      var fd: nat :| fd !in t && Leaves(t[fd := some[0]], u, some[1..]);
      LeavesBoth(t[fd := some[0]], u, v, some[1..], more);
      assert (some + more)[1..] == some[1..] + more;
    }
  }

  lemma {:induction false} LeavesExtends(t: Table, u: Table, what: seq<Open>)
    requires Leaves(t, u, what)
    ensures Extends(t, u)
    ensures forall fd :: fd in u && fd !in t ==> u[fd] in what
    decreases |what|
  {
    if what != [] {
      var fd: nat :| fd !in t && Leaves(t[fd := what[0]], u, what[1..]);
      LeavesExtends(t[fd := what[0]], u, what[1..]);
    }
  }

  /** Closing what was open before does not touch what is left. */
  lemma {:induction false} LeavesWithout(t: Table, u: Table, what: seq<Open>, closed: set<nat>)
    requires Leaves(t, u, what) && closed <= t.Keys
    ensures Leaves(t - closed, u - closed, what)
    decreases |what|
  {
    if what != [] {
      var fd: nat :| fd !in t && Leaves(t[fd := what[0]], u, what[1..]);
      LeavesWithout(t[fd := what[0]], u, what[1..], closed);
      assert t[fd := what[0]] - closed == (t - closed)[fd := what[0]];
      assert fd !in t - closed && Leaves((t - closed)[fd := what[0]], u - closed, what[1..]);
    }
  }

  lemma {:induction false} SavesLeft(t: Table, inSave: int, outSave: int)
    requires 0 in t && 1 in t && inSave >= -1 && outSave >= -1
    requires inSave == -1 || (inSave !in t && inSave != outSave)
    requires outSave == -1 || outSave !in t
    ensures Leaves(t, Leaving(t, inSave, outSave),
                   (if inSave != -1 then [t[0]] else []) + (if outSave != -1 then [t[1]] else []))
  {
    hide Leaves;
    var u := Leaving(t, inSave, -1);
    LeavesNone(t);
    LeavesNone(u);
    if inSave != -1 {
      LeavesOne(t, inSave, t[0]);
    }
    if outSave != -1 {
      LeavesOne(u, outSave, t[1]);
    }
    LeavesBoth(t, u, Leaving(t, inSave, outSave),
               if inSave != -1 then [t[0]] else [], if outSave != -1 then [t[1]] else []);
  }

  ghost predicate Extends(before: Table, after: Table) {
    forall fd :: fd in before ==> fd in after && after[fd] == before[fd]
  }

  /** The input and output descriptors are newly opened files, or else the given pipe ends; nothing
      else was opened. */
  ghost predicate Opened(before: Table, after: Table, c: Explained, last: int, cur: int, input: int, output: int) {
    && (if c.fileToRead.Some? then input >= 0 && input !in before else input == last)
    && (if c.fileToAppend.Some? || c.fileToOverwrite.Some? then output >= 0 && output !in before else output == cur)
    && (c.fileToRead.Some? && (c.fileToAppend.Some? || c.fileToOverwrite.Some?) ==> input != output)
    && (input != -1 ==> input in after && after[input] == StdinOf(c, after[input]))
    && (output != -1 ==> output in after && after[output] == StdoutOf(c, after[output]))
    && after.Keys == before.Keys + (if c.fileToRead.Some? then {input} else {})
                                 + (if c.fileToAppend.Some? || c.fileToOverwrite.Some? then {output} else {})
  }

  /** What standard descriptor `std` refers to, redirected to `fd` unless that is -1. */
  ghost function Seen(t: Table, fd: int, std: nat): Open
    requires std in t && (fd == -1 || (fd >= 0 && fd in t))
  {
    if fd == -1 then t[std] else t[fd]
  }

  /** The table with the saved copies of descriptors 0 and 1 left in it. */
  ghost function Leaving(t: Table, inSave: int, outSave: int): Table
    requires 0 in t && 1 in t && inSave >= -1 && outSave >= -1
  {
    var u := if inSave == -1 then t else t[inSave as nat := t[0]];
    if outSave == -1 then u else u[outSave as nat := t[1]]
  }
}
