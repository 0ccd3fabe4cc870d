/** Log records under a mutex per virtual host: `log_write_info` locks and then opens the log file,
    `log_write_error` opens and then locks. Any number of threads, any interleaving, any open failing. */
module Logger {
  import opened CStrings

  /** The pieces that one call prints with its `fprintf`s. */
  type Record = seq<string>

  datatype Pc =
    | Idle
    | Locking(v: nat, rec: Record)                             // info: before pthread_mutex_lock
    | Locked(v: nat, rec: Record)                              // info: before fopen
    | Opening(v: nat, rec: Record)                             // error: before fopen
    | Opened(v: nat, rec: Record)                              // error: before pthread_mutex_lock
    | Writing(v: nat, rec: Record, printed: nat, flushed: nat) // needs_close, file open, lock held
    | Unlocking(v: nat)                                        // after fclose
    | Fallback(rec: Record, printed: nat)                      // printing to the terminal, needs_close false

  datatype LockEvent = Acquire(t: nat) | Release(t: nat)

  /** `path(v)` is the log file of virtual host `v`. `done` lists, per file, the records closed so far;
      `failed` the hosts whose log an info call could not open; `trace` what happened to each mutex. */
  datatype State = State(
    pcs: map<nat, Pc>,
    lock: map<nat, nat>,
    logs: map<nat, seq<string>>,
    done: map<nat, seq<Record>>,
    failed: set<nat>,
    trace: map<nat, seq<LockEvent>>)

  datatype Step =
    | StartInfo(t: nat, v: nat, rec: Record)
    | StartError(t: nat, v: nat, rec: Record)
    | StartTerminal(t: nat, rec: Record)   // no domain, or an error for an unknown one
    | Lock(t: nat)
    | OpenOk(t: nat)
    | OpenFails(t: nat)
    | Print(t: nat)
    | Flush(t: nat, upTo: nat)             // stdio may write out what is printed at any time
    | Close(t: nat)                        // fclose writes out the rest
    | Unlock(t: nat)
    | Finish(t: nat)

  function At<T>(m: map<nat, seq<T>>, k: nat): seq<T> { if k in m then m[k] else [] }

  predicate Enabled(s: State, step: Step) {
    && step.t in s.pcs
    && var pc := s.pcs[step.t];
       match step
       case StartInfo(_, _, _) => pc.Idle?
       case StartError(_, _, _) => pc.Idle?
       case StartTerminal(_, _) => pc.Idle?
       case Lock(_) => (pc.Locking? || pc.Opened?) && pc.v !in s.lock
       case OpenOk(_) => pc.Locked? || pc.Opening?
       case OpenFails(_) => pc.Locked? || pc.Opening?
       case Print(_) => (pc.Writing? || pc.Fallback?) && pc.printed < |pc.rec|
       case Flush(_, upTo) => pc.Writing? && pc.flushed < upTo <= pc.printed <= |pc.rec|
       case Close(_) => pc.Writing? && pc.printed == |pc.rec| && pc.flushed <= |pc.rec|
       case Unlock(_) => pc.Unlocking?
       case Finish(_) => pc.Fallback? && pc.printed == |pc.rec|
  }

  function Apply(s: State, step: Step, path: nat -> nat): State
    requires Enabled(s, step)
  {
    var t := step.t;
    var pc := s.pcs[t];
    match step
    case StartInfo(_, v, rec) => s.(pcs := s.pcs[t := Locking(v, rec)])
    case StartError(_, v, rec) => s.(pcs := s.pcs[t := Opening(v, rec)])
    case StartTerminal(_, rec) => s.(pcs := s.pcs[t := Fallback(rec, 0)])
    case Lock(_) =>
      s.(pcs := s.pcs[t := if pc.Locking? then Locked(pc.v, pc.rec) else Writing(pc.v, pc.rec, 0, 0)],
         lock := s.lock[pc.v := t],
         trace := s.trace[pc.v := At(s.trace, pc.v) + [Acquire(t)]])
    case OpenOk(_) =>
      s.(pcs := s.pcs[t := if pc.Locked? then Writing(pc.v, pc.rec, 0, 0) else Opened(pc.v, pc.rec)])
    case OpenFails(_) =>
      s.(pcs := s.pcs[t := Fallback(pc.rec, 0)], failed := if pc.Locked? then s.failed + {pc.v} else s.failed)
    case Print(_) => s.(pcs := s.pcs[t := pc.(printed := pc.printed + 1)])
    case Flush(_, upTo) =>
      s.(pcs := s.pcs[t := pc.(flushed := upTo)],
         logs := s.logs[path(pc.v) := At(s.logs, path(pc.v)) + pc.rec[pc.flushed..upTo]])
    case Close(_) =>
      s.(pcs := s.pcs[t := Unlocking(pc.v)],
         logs := s.logs[path(pc.v) := At(s.logs, path(pc.v)) + pc.rec[pc.flushed..]],
         done := s.done[path(pc.v) := At(s.done, path(pc.v)) + [pc.rec]])
    case Unlock(_) =>
      s.(pcs := s.pcs[t := Idle], lock := s.lock - {pc.v},
         trace := s.trace[pc.v := At(s.trace, pc.v) + [Release(t)]])
    case Finish(_) => s.(pcs := s.pcs[t := Idle])
  }

  predicate Init(s: State) {
    && (forall t :: t in s.pcs ==> s.pcs[t] == Idle)
    && s.lock == map[] && s.logs == map[] && s.done == map[] && s.failed == {} && s.trace == map[]
  }

  // ----- The invariant

  /** Whole records, one after the other. */
  function Flatten(records: seq<Record>): seq<string> {
    if records == [] then [] else Flatten(records[..|records| - 1]) + records[|records| - 1]
  }

  /** Between taking the mutex of `v` and releasing it, with the file open or about to be. */
  predicate Inside(pc: Pc, v: nat) { (pc.Locked? || pc.Writing? || pc.Unlocking?) && pc.v == v }

  /** Acquire and release alternate, and the release is by the thread that acquired. */
  predicate Matched(tr: seq<LockEvent>) { forall i: nat :: i < |tr| ==> MatchedAt(tr, i) }

  predicate MatchedAt(tr: seq<LockEvent>, i: nat)
    requires i < |tr|
  {
    if i % 2 == 0 then tr[i].Acquire? else tr[i] == Release(tr[i - 1].t)
  }

  predicate ThreadOk(s: State, t: nat)
    requires t in s.pcs
  {
    var pc := s.pcs[t];
    && ((pc.Locked? || pc.Writing? || pc.Unlocking?) ==> pc.v in s.lock && s.lock[pc.v] == t && pc.v !in s.failed)
    && (pc.Writing? ==> pc.flushed <= pc.printed <= |pc.rec|)
  }

  predicate LockOk(s: State, v: nat) {
    && (v in s.lock ==> s.lock[v] in s.pcs && (v in s.failed || Inside(s.pcs[s.lock[v]], v)))
    && (v in s.failed ==> v in s.lock)
    && Matched(At(s.trace, v))
    && (v in s.lock <==> |At(s.trace, v)| % 2 == 1)
    && (v in s.lock ==> At(s.trace, v)[|At(s.trace, v)| - 1] == Acquire(s.lock[v]))
  }

  /** What the holder of the mutex of `v` has already written out of its unfinished record. */
  function Partial(s: State, v: nat): seq<string>
    requires LockOk(s, v)
  {
    if v !in s.lock then []
    else
      var pc := s.pcs[s.lock[v]];
      if pc.Writing? && pc.v == v && pc.flushed <= |pc.rec| then pc.rec[..pc.flushed] else []
  }

  predicate LogOk(s: State, path: nat -> nat, v: nat)
    requires LockOk(s, v)
  {
    At(s.logs, path(v)) == Flatten(At(s.done, path(v))) + Partial(s, v)
  }

  /** The lock discipline; it does not depend on where the logs are. */
  ghost predicate LockInv(s: State) {
    && (forall t :: t in s.pcs ==> ThreadOk(s, t))
    && (forall v: nat :: LockOk(s, v))
  }

  ghost predicate Inv(s: State, path: nat -> nat) {
    && LockInv(s)
    && (forall v: nat :: LogOk(s, path, v))
  }

  ghost predicate Injective(path: nat -> nat) { forall v: nat, w: nat :: path(v) == path(w) ==> v == w }

  // ----- Every step keeps it

  lemma {:induction false} KeepsThread(s: State, step: Step, path: nat -> nat, t: nat)
    requires Enabled(s, step) && LockInv(s) && t in s.pcs
    ensures ThreadOk(Apply(s, step, path), t)
  {
    assert ThreadOk(s, t) && ThreadOk(s, step.t);
    var pc := s.pcs[step.t];
    if step.Lock? || step.Unlock? { assert LockOk(s, pc.v); }
  }

  lemma {:induction false} MatchedMore(tr: seq<LockEvent>, t: nat)
    requires Matched(tr)
    ensures |tr| % 2 == 0 ==> Matched(tr + [Acquire(t)]) && |tr + [Acquire(t)]| % 2 == 1
    ensures |tr| % 2 == 1 && tr[|tr| - 1] == Acquire(t) ==> Matched(tr + [Release(t)]) && |tr + [Release(t)]| % 2 == 0
  {
    var a, r := tr + [Acquire(t)], tr + [Release(t)];
    forall i: nat | i < |tr|
      ensures MatchedAt(a, i) && MatchedAt(r, i)
    {
      assert MatchedAt(tr, i);
    }
  }

  lemma {:induction false} KeepsLock(s: State, step: Step, path: nat -> nat, v: nat)
    requires Enabled(s, step) && LockInv(s)
    ensures LockOk(Apply(s, step, path), v)
  {
    hide Matched;
    assert LockOk(s, v) && ThreadOk(s, step.t);
    if step.Lock? || step.Unlock? {
      assert LockOk(s, s.pcs[step.t].v);
      MatchedMore(At(s.trace, v), step.t);
    }
  }

  /** A step that writes to no file leaves `v` alone, except that it may change who holds its mutex. */
  lemma {:induction false} KeepsLogUnwritten(s: State, step: Step, path: nat -> nat, v: nat)
    requires Enabled(s, step) && Inv(s, path) && !step.Flush? && !step.Close?
    requires LockOk(Apply(s, step, path), v)
    ensures LogOk(Apply(s, step, path), path, v)
  {
    hide Matched, Flatten;
    var s' := Apply(s, step, path);
    assert LockOk(s, v) && LogOk(s, path, v) && ThreadOk(s, step.t);
    assert Partial(s', v) == Partial(s, v);
  }

  lemma {:induction false} KeepsLogElsewhere(s: State, step: Step, path: nat -> nat, v: nat)
    requires Enabled(s, step) && Inv(s, path) && Injective(path)
    requires (step.Flush? || step.Close?) && s.pcs[step.t].v != v
    requires LockOk(Apply(s, step, path), v)
    ensures LogOk(Apply(s, step, path), path, v)
  {
    hide Matched, Flatten;
    var s', w := Apply(s, step, path), s.pcs[step.t].v;
    assert LockOk(s, v) && LogOk(s, path, v) && ThreadOk(s, step.t);
    assert path(v) != path(w);
    assert Partial(s', v) == Partial(s, v);
  }

  lemma {:induction false} FlattenMore(records: seq<Record>, rec: Record)
    ensures Flatten(records + [rec]) == Flatten(records) + rec
  {
    assert (records + [rec])[..|records|] == records;
  }

  lemma AppendRest(whole: seq<string>, rec: Record, k: nat, upTo: nat)
    requires k <= upTo <= |rec|
    ensures (whole + rec[..k]) + rec[k..upTo] == whole + rec[..upTo]
    ensures (whole + rec[..k]) + rec[k..] == (whole + rec) + []
  {
  }

  /** What the writing thread finds in the log of its host. */
  lemma {:induction false} LogBefore(s: State, path: nat -> nat, t: nat)
    requires Inv(s, path) && t in s.pcs && s.pcs[t].Writing?
    ensures var pc := s.pcs[t];
            && pc.v in s.lock
            && s.lock[pc.v] == t
            && pc.flushed <= |pc.rec|
            && At(s.logs, path(pc.v)) == Flatten(At(s.done, path(pc.v))) + pc.rec[..pc.flushed]
  {
    hide Matched, Flatten;
    assert ThreadOk(s, t) && LockOk(s, s.pcs[t].v) && LogOk(s, path, s.pcs[t].v);
  }

  lemma {:induction false} KeepsLogFlushed(s: State, step: Step, path: nat -> nat)
    requires Enabled(s, step) && Inv(s, path) && step.Flush?
    requires LockOk(Apply(s, step, path), s.pcs[step.t].v)
    ensures LogOk(Apply(s, step, path), path, s.pcs[step.t].v)
  {
    hide Matched, Flatten, Inv;
    var pc := s.pcs[step.t];
    LogBefore(s, path, step.t);
    AppendRest(Flatten(At(s.done, path(pc.v))), pc.rec, pc.flushed, step.upTo);
  }

  lemma {:induction false} KeepsLogClosed(s: State, step: Step, path: nat -> nat)
    requires Enabled(s, step) && Inv(s, path) && step.Close?
    requires LockOk(Apply(s, step, path), s.pcs[step.t].v)
    ensures LogOk(Apply(s, step, path), path, s.pcs[step.t].v)
  {
    hide Matched, Flatten, Inv;
    var pc := s.pcs[step.t];
    LogBefore(s, path, step.t);
    FlattenMore(At(s.done, path(pc.v)), pc.rec);
    AppendRest(Flatten(At(s.done, path(pc.v))), pc.rec, pc.flushed, |pc.rec|);
  }

  lemma {:induction false} KeepsLocks(s: State, step: Step, path: nat -> nat)
    requires Enabled(s, step) && LockInv(s)
    ensures LockInv(Apply(s, step, path))
  {
    hide ThreadOk, LockOk;
    var s' := Apply(s, step, path);
    forall t | t in s'.pcs
      ensures ThreadOk(s', t)
    {
      KeepsThread(s, step, path, t);
    }
    forall v: nat
      ensures LockOk(s', v)
    {
      KeepsLock(s, step, path, v);
    }
  }

  lemma {:induction false} Keeps(s: State, step: Step, path: nat -> nat)
    requires Enabled(s, step) && Inv(s, path) && Injective(path)
    ensures Inv(Apply(s, step, path), path)
  {
    hide ThreadOk, LockOk, LogOk;
    var s' := Apply(s, step, path);
    KeepsLocks(s, step, path);
    forall v: nat
      ensures LogOk(s', path, v)
    {
      if !step.Flush? && !step.Close? {
        KeepsLogUnwritten(s, step, path, v);
      } else if s.pcs[step.t].v == v {
        if step.Flush? { KeepsLogFlushed(s, step, path); } else { KeepsLogClosed(s, step, path); }
      } else {
        KeepsLogElsewhere(s, step, path, v);
      }
    }
  }

  // ----- Every run

  ghost predicate IsRun(states: seq<State>, steps: seq<Step>, path: nat -> nat) {
    && |states| == |steps| + 1
    && Init(states[0])
    && (forall i :: 0 <= i < |steps| ==>
          Enabled(states[i], steps[i]) && states[i + 1] == Apply(states[i], steps[i], path))
  }

  lemma {:induction false} LocksReachable(states: seq<State>, steps: seq<Step>, path: nat -> nat, n: nat)
    requires IsRun(states, steps, path) && n <= |steps|
    ensures LockInv(states[n])
  {
    hide LockInv, Enabled, Apply;
    if n == 0 {
      InitiallyInv(states[0], path);
    } else {
      LocksReachable(states, steps, path, n - 1);
      assert Enabled(states[n - 1], steps[n - 1]) && states[n - 1 + 1] == Apply(states[n - 1], steps[n - 1], path);
      KeepsLocks(states[n - 1], steps[n - 1], path);
    }
  }

  lemma {:induction false} Reachable(states: seq<State>, steps: seq<Step>, path: nat -> nat, n: nat)
    requires IsRun(states, steps, path) && Injective(path) && n <= |steps|
    ensures Inv(states[n], path)
  {
    hide Inv, Enabled, Apply;
    if n == 0 {
      InitiallyInv(states[0], path);
    } else {
      Reachable(states, steps, path, n - 1);
      assert Enabled(states[n - 1], steps[n - 1]) && states[n - 1 + 1] == Apply(states[n - 1], steps[n - 1], path);
      Keeps(states[n - 1], steps[n - 1], path);
    }
  }

  lemma InitiallyInv(s: State, path: nat -> nat)
    requires Init(s)
    ensures LockInv(s) && Inv(s, path)
  {
  }

  /** In every state of every run over distinct log files, whatever opens fail: while the mutex of a host
      is free its log is exactly the whole records closed so far, in that order; while it is held, that
      and a beginning of one more record; and the mutex has been acquired and released alternately,
      each time by one thread. */
  lemma {:induction false} WholeRecords(states: seq<State>, steps: seq<Step>, path: nat -> nat, n: nat, v: nat)
    requires IsRun(states, steps, path) && Injective(path) && n <= |steps|
    ensures var s := states[n];
            && (v !in s.lock ==> At(s.logs, path(v)) == Flatten(At(s.done, path(v))))
            && Flatten(At(s.done, path(v))) <= At(s.logs, path(v))
            && Matched(At(s.trace, v))
            && (v in s.lock <==> |At(s.trace, v)| % 2 == 1)
  {
    Reachable(states, steps, path, n);
    assert LockOk(states[n], v) && LogOk(states[n], path, v);
  }

  // ----- Whose record it is

  predicate Starts(step: Step) { step.StartInfo? || step.StartError? || step.StartTerminal? }

  /** The call that thread `t` is in, or was in last: its latest start. */
  function CallOf(steps: seq<Step>, t: nat): Option<Step> {
    if steps == [] then None
    else
      var last := steps[|steps| - 1];
      if last.t == t && Starts(last) then Some(last) else CallOf(steps[..|steps| - 1], t)
  }

  /** A thread is where its call has led it, with the host and the record it was called with. */
  predicate Follows(pc: Pc, call: Option<Step>, t: nat) {
    match pc
    case Idle => true
    case Locking(v, rec) => call == Some(StartInfo(t, v, rec))
    case Locked(v, rec) => call == Some(StartInfo(t, v, rec))
    case Opening(v, rec) => call == Some(StartError(t, v, rec))
    case Opened(v, rec) => call == Some(StartError(t, v, rec))
    case Writing(v, rec, _, _) => call == Some(StartInfo(t, v, rec)) || call == Some(StartError(t, v, rec))
    case Unlocking(v) => call.Some? && (call.value.StartInfo? || call.value.StartError?) && call.value.v == v
    case Fallback(rec, _) => call.Some? && Starts(call.value) && call.value.rec == rec
  }

  lemma {:induction false} CallMore(steps: seq<Step>, step: Step, t: nat)
    ensures CallOf(steps + [step], t) == if step.t == t && Starts(step) then Some(step) else CallOf(steps, t)
  {
    assert (steps + [step])[..|steps|] == steps;
  }

  lemma {:induction false} FollowsStep(s: State, step: Step, path: nat -> nat, call: Option<Step>, t: nat)
    requires Enabled(s, step) && t in s.pcs && Follows(s.pcs[t], call, t)
    ensures var call' := if step.t == t && Starts(step) then Some(step) else call;
            t in Apply(s, step, path).pcs && Follows(Apply(s, step, path).pcs[t], call', t)
  {
  }

  lemma {:induction false} FollowsCall(states: seq<State>, steps: seq<Step>, path: nat -> nat, n: nat, t: nat)
    requires IsRun(states, steps, path) && n <= |steps| && t in states[0].pcs
    ensures t in states[n].pcs && Follows(states[n].pcs[t], CallOf(steps[..n], t), t)
  {
    hide Enabled, Apply, Follows, CallOf;
    if n == 0 {
      IdleFollows(CallOf(steps[..0], t), t);
    } else {
      FollowsCall(states, steps, path, n - 1, t);
      var s, step := states[n - 1], steps[n - 1];
      assert Enabled(s, step) && states[n - 1 + 1] == Apply(s, step, path);
      FollowsStep(s, step, path, CallOf(steps[..n - 1], t), t);
      CallMore(steps[..n - 1], step, t);
      assert steps[..n - 1] + [step] == steps[..n];
    }
  }

  lemma IdleFollows(call: Option<Step>, t: nat)
    ensures Follows(Idle, call, t)
  {
  }

  lemma {:induction false} SameThreads(states: seq<State>, steps: seq<Step>, path: nat -> nat, n: nat)
    requires IsRun(states, steps, path) && n <= |steps|
    ensures states[n].pcs.Keys == states[0].pcs.Keys
  {
    hide Init;
    if n > 0 {
      SameThreads(states, steps, path, n - 1);
      assert Enabled(states[n - 1], steps[n - 1]) && states[n - 1 + 1] == Apply(states[n - 1], steps[n - 1], path);
    }
  }

  /** What step `n` of a run adds to the closed records and to the failed hosts: a close adds the very record
      its thread was called with, to the log of the host it was called for; a failing open adds the host
      of an info call, and nothing for an error call; no other step adds anything. */
  lemma {:induction false} RecordOfCall(states: seq<State>, steps: seq<Step>, path: nat -> nat, n: nat)
    requires IsRun(states, steps, path) && n < |steps|
    ensures var s, s', call := states[n], states[n + 1], CallOf(steps[..n], steps[n].t);
            && (steps[n].Close? || steps[n].OpenFails? ==>
                  call.Some? && call.value.t == steps[n].t && (call.value.StartInfo? || call.value.StartError?))
            && s'.done == (if steps[n].Close?
                           then var p := path(call.value.v); s.done[p := At(s.done, p) + [call.value.rec]]
                           else s.done)
            && s'.failed == (if steps[n].OpenFails? && call.value.StartInfo? then s.failed + {call.value.v}
                             else s.failed)
  {
    hide CallOf, Init;
    var s, step := states[n], steps[n];
    assert Enabled(s, step) && states[n + 1] == Apply(s, step, path);
    SameThreads(states, steps, path, n);
    FollowsCall(states, steps, path, n, step.t);
  }

  /** So every record in a log is one that some earlier call for a host with that log was given. */
  lemma {:induction false} DoneWasCalled(states: seq<State>, steps: seq<Step>, path: nat -> nat, n: nat,
                                         file: nat, rec: Record)
    requires IsRun(states, steps, path) && n <= |steps| && rec in At(states[n].done, file)
    ensures exists i :: 0 <= i < n && (steps[i].StartInfo? || steps[i].StartError?)
                        && path(steps[i].v) == file && steps[i].rec == rec
  {
    hide Enabled, Apply;
    if n > 0 {
      RecordOfCall(states, steps, path, n - 1);
      if rec in At(states[n - 1].done, file) {
        DoneWasCalled(states, steps, path, n - 1, file, rec);
      } else {
        CallIsStep(steps[..n - 1], steps[n - 1].t);
      }
    }
  }

  lemma {:induction false} CallIsStep(steps: seq<Step>, t: nat)
    requires CallOf(steps, t).Some?
    ensures exists i :: 0 <= i < |steps| && steps[i] == CallOf(steps, t).value
  {
    var last := |steps| - 1;
    if steps[last].t == t && Starts(steps[last]) {
      assert steps[last] == CallOf(steps, t).value;
    } else {
      CallIsStep(steps[..last], t);
      var i :| 0 <= i < last && steps[..last][i] == CallOf(steps, t).value;
      assert steps[i] == CallOf(steps, t).value;
    }
  }

  /** Held, but not by a thread that will release it. */
  predicate Stuck(s: State, v: nat) {
    v in s.lock && (s.lock[v] in s.pcs ==> !Inside(s.pcs[s.lock[v]], v))
  }

  /** In every run, shared log files or not: a mutex is stuck exactly when an info call has failed to open
      the log of its host while holding it; if no call ever did, no thread holds two mutexes, and exactly
      the threads inside hold one. */
  lemma {:induction false} LocksHeld(states: seq<State>, steps: seq<Step>, path: nat -> nat, n: nat)
    requires IsRun(states, steps, path) && n <= |steps|
    ensures var s := states[n];
            && (forall v: nat :: Stuck(s, v) <==> v in s.failed)
            && (forall v: nat :: Matched(At(s.trace, v)))
            && (s.failed == {} ==>
                  forall v: nat, t: nat :: (v in s.lock && s.lock[v] == t) <==> (t in s.pcs && Inside(s.pcs[t], v)))
            && (s.failed == {} ==>
                  forall v, w :: v in s.lock && w in s.lock && s.lock[v] == s.lock[w] ==> v == w)
  {
    LocksReachable(states, steps, path, n);
    var s := states[n];
    forall v: nat
      ensures Stuck(s, v) <==> v in s.failed
      ensures Matched(At(s.trace, v))
    {
      OneLock(s, v);
    }
    if s.failed == {} {
      forall v: nat, t: nat
        ensures (v in s.lock && s.lock[v] == t) <==> (t in s.pcs && Inside(s.pcs[t], v))
      {
        OneLock(s, v);
        if t in s.pcs { assert ThreadOk(s, t); }
      }
      forall v, w | v in s.lock && w in s.lock && s.lock[v] == s.lock[w]
        ensures v == w
      {
        OneLock(s, v);
        OneLock(s, w);
      }
    }
  }

  lemma {:induction false} OneLock(s: State, v: nat)
    requires LockInv(s)
    ensures Stuck(s, v) <==> v in s.failed
    ensures v in s.lock && v !in s.failed ==> s.lock[v] in s.pcs && Inside(s.pcs[s.lock[v]], v)
    ensures Matched(At(s.trace, v))
  {
    assert LockOk(s, v);
    if v in s.lock && Inside(s.pcs[s.lock[v]], v) { assert ThreadOk(s, s.lock[v]); }
  }

  /** And a stuck mutex is never free again, in any continuation of the run: nobody acquires or releases it,
      and (its log being its own) no record is ever added to its log. */
  lemma {:induction false} StuckForever(states: seq<State>, steps: seq<Step>, path: nat -> nat,
                                        m: nat, n: nat, v: nat)
    requires IsRun(states, steps, path) && m <= n <= |steps| && v in states[m].failed
    ensures v in states[n].failed && v in states[n].lock
    ensures At(states[n].trace, v) == At(states[m].trace, v)
    ensures Injective(path) ==> At(states[n].done, path(v)) == At(states[m].done, path(v))
    decreases n
  {
    hide LockInv, Enabled, Apply;
    if m < n {
      StuckForever(states, steps, path, m, n - 1, v);
      LocksReachable(states, steps, path, n - 1);
      var s, step := states[n - 1], steps[n - 1];
      assert Enabled(s, step) && states[n - 1 + 1] == Apply(s, step, path);
      StuckStep(s, step, path, v);
    }
    LocksReachable(states, steps, path, n);
    FailedHeld(states[n], v);
  }

  lemma {:induction false} FailedHeld(s: State, v: nat)
    requires LockInv(s) && v in s.failed
    ensures v in s.lock
  {
    assert LockOk(s, v);
  }

  lemma {:induction false} StuckStep(s: State, step: Step, path: nat -> nat, v: nat)
    requires Enabled(s, step) && LockInv(s) && v in s.failed
    ensures v in Apply(s, step, path).failed
    ensures At(Apply(s, step, path).trace, v) == At(s.trace, v)
    ensures Injective(path) ==> At(Apply(s, step, path).done, path(v)) == At(s.done, path(v))
  {
    hide Matched;
    FailedHeld(s, v);
    assert ThreadOk(s, step.t);
    if step.Close? && Injective(path) { assert path(v) != path(s.pcs[step.t].v); }
  }

  /** Such a mutex can come about for every host and every choice of log files: one call whose log cannot
      be opened is enough. */
  lemma {:induction false} OpenFailureSticks(path: nat -> nat, v: nat, rec: Record)
      returns (states: seq<State>, steps: seq<Step>)
    ensures IsRun(states, steps, path)
    ensures steps == [StartInfo(0, v, rec), Lock(0), OpenFails(0)]
    ensures v in states[3].failed && Stuck(states[3], v)
  {
    var s0 := State(map[0 := Idle], map[], map[], map[], {}, map[]);
    var s1 := Apply(s0, StartInfo(0, v, rec), path);
    var s2 := Apply(s1, Lock(0), path);
    var s3 := Apply(s2, OpenFails(0), path);
    states := [s0, s1, s2, s3];
    steps := [StartInfo(0, v, rec), Lock(0), OpenFails(0)];
  }

  // ----- A call whose open succeeds writes its record

  /** Both kinds of call come to write, the one locking first, the other opening first. */
  lemma {:induction false} ComesToWrite(s: State, path: nat -> nat, t: nat, v: nat, rec: Record, info: bool)
    requires t in s.pcs && s.pcs[t] == Idle && v !in s.lock
    ensures var start := if info then StartInfo(t, v, rec) else StartError(t, v, rec);
            var first := if info then Lock(t) else OpenOk(t);
            var second := if info then OpenOk(t) else Lock(t);
            && Enabled(s, start)
            && Enabled(Apply(s, start, path), first)
            && Enabled(Apply(Apply(s, start, path), first, path), second)
            && Apply(Apply(Apply(s, start, path), first, path), second, path) ==
               s.(pcs := s.pcs[t := Writing(v, rec, 0, 0)], lock := s.lock[v := t],
                  trace := s.trace[v := At(s.trace, v) + [Acquire(t)]])
  {
  }

  lemma {:induction false} PrintAll(states: seq<State>, steps: seq<Step>, path: nat -> nat, t: nat)
      returns (states': seq<State>, steps': seq<Step>)
    requires IsRun(states, steps, path) && |states| == |steps| + 1 && t in states[|steps|].pcs
    requires var pc := states[|steps|].pcs[t]; pc.Writing? && pc.printed <= |pc.rec|
    ensures IsRun(states', steps', path) && |states'| == |steps'| + 1 && states <= states'
    ensures var s := states[|steps|];
            var pc := s.pcs[t];
            states'[|steps'|] == s.(pcs := s.pcs[t := Writing(pc.v, pc.rec, |pc.rec|, pc.flushed)])
    decreases |states[|steps|].pcs[t].rec| - states[|steps|].pcs[t].printed
  {
    hide IsRun;
    var s := states[|steps|];
    var pc := s.pcs[t];
    if pc.printed == |pc.rec| {
      states', steps' := states, steps;
      assert s.pcs[t := pc] == s.pcs;
    } else {
      var more, st := RunMore(states, steps, Print(t), path);
      states', steps' := PrintAll(more, st, path, t);
      var last := Writing(pc.v, pc.rec, |pc.rec|, pc.flushed);
      assert more[|st|].pcs[t := last] == s.pcs[t := last];
    }
  }

  lemma {:induction false} CloseUnlock(s: State, path: nat -> nat, t: nat, v: nat, rec: Record)
    requires t in s.pcs && s.pcs[t] == Writing(v, rec, |rec|, 0)
    ensures Enabled(s, Close(t)) && Enabled(Apply(s, Close(t), path), Unlock(t))
    ensures var s' := Apply(Apply(s, Close(t), path), Unlock(t), path);
            && s'.pcs == s.pcs[t := Idle] && s'.lock == s.lock - {v} && s'.failed == s.failed
            && s'.logs == s.logs[path(v) := At(s.logs, path(v)) + rec]
            && s'.done == s.done[path(v) := At(s.done, path(v)) + [rec]]
  {
    assert rec[0..] == rec;
  }

  /** Every run can go on with a whole call of either kind, by any idle thread for any host whose mutex is
      free: its record is added to the log of the host, and the mutex is free again. */
  lemma {:induction false} CallCompletes(states: seq<State>, steps: seq<Step>, path: nat -> nat,
                                         t: nat, v: nat, rec: Record, info: bool)
      returns (states': seq<State>, steps': seq<Step>)
    requires IsRun(states, steps, path) && |states| == |steps| + 1
    requires var s := states[|steps|]; t in s.pcs && s.pcs[t] == Idle && v !in s.lock
    ensures IsRun(states', steps', path) && |states'| == |steps'| + 1 && states <= states'
    ensures var s, s' := states[|steps|], states'[|steps'|];
            && s'.pcs == s.pcs && s'.lock == s.lock && s'.failed == s.failed
            && s'.logs == s.logs[path(v) := At(s.logs, path(v)) + rec]
            && s'.done == s.done[path(v) := At(s.done, path(v)) + [rec]]
  {
    hide IsRun, Enabled, Apply;
    var s := states[|steps|];
    ComesToWrite(s, path, t, v, rec, info);
    var ss1, st1 := RunMore(states, steps, if info then StartInfo(t, v, rec) else StartError(t, v, rec), path);
    var ss2, st2 := RunMore(ss1, st1, if info then Lock(t) else OpenOk(t), path);
    var ss3, st3 := RunMore(ss2, st2, if info then OpenOk(t) else Lock(t), path);
    var ss4, st4 := PrintAll(ss3, st3, path, t);
    CloseUnlock(ss4[|st4|], path, t, v, rec);
    var ss5, st5 := RunMore(ss4, st4, Close(t), path);
    states', steps' := RunMore(ss5, st5, Unlock(t), path);
    var s' := states'[|steps'|];
    assert s'.pcs == s.pcs && s'.lock == s.lock;
  }

  /** Distinct log files are needed: whenever two hosts share one, some run shows an unfinished record
      in it while the mutex of one of them is free. */
  lemma {:induction false} SharedFileTears(path: nat -> nat, v: nat, w: nat)
      returns (states: seq<State>, steps: seq<Step>)
    requires v != w && path(v) == path(w)
    ensures IsRun(states, steps, path)
    ensures var s := states[|steps|];
            v !in s.lock && At(s.logs, path(v)) != Flatten(At(s.done, path(v)))
  {
    hide Flatten, IsRun;
    var rec := ["a", "b"];
    states, steps := OpensLog(path, w, rec);
    states, steps := RunMore(states, steps, Print(0), path);
    states, steps := RunMore(states, steps, Flush(0, 1), path);
    assert At(states[|steps|].logs, path(v)) == rec[0..1];
    NothingDone();
  }

  lemma {:induction false} OpensLog(path: nat -> nat, w: nat, rec: Record)
      returns (states: seq<State>, steps: seq<Step>)
    ensures IsRun(states, steps, path) && |states| == |steps| + 1
    ensures var s := states[|steps|];
            s.pcs == map[0 := Writing(w, rec, 0, 0)] && s.lock == map[w := 0] && s.logs == map[] && s.done == map[]
  {
    hide IsRun;
    var s0 := State(map[0 := Idle], map[], map[], map[], {}, map[]);
    RunStart(s0, path);
    states, steps := [s0], [];
    states, steps := RunMore(states, steps, StartInfo(0, w, rec), path);
    states, steps := RunMore(states, steps, Lock(0), path);
    states, steps := RunMore(states, steps, OpenOk(0), path);
  }

  lemma RunStart(s: State, path: nat -> nat)
    requires Init(s)
    ensures IsRun([s], [], path)
  {
  }

  lemma {:induction false} RunMore(states: seq<State>, steps: seq<Step>, step: Step, path: nat -> nat)
      returns (states': seq<State>, steps': seq<Step>)
    requires IsRun(states, steps, path) && |states| == |steps| + 1 && Enabled(states[|steps|], step)
    ensures IsRun(states', steps', path) && |states'| == |steps'| + 1
    ensures steps' == steps + [step] && states' == states + [Apply(states[|steps|], step, path)]
  {
    hide Apply, Enabled, Init;
    states', steps' := states + [Apply(states[|steps|], step, path)], steps + [step];
  }

  lemma NothingDone()
    ensures Flatten([]) == []
  {
  }
}
