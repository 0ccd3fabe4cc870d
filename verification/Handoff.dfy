/** The hand-off of accepted connections: listener threads accept and register them with a one-shot
    epoll set, worker threads take them from it, serve, close and free them. Any number of threads,
    any interleaving of their steps. */
module Handoff {
  /** A listener between `accept` and `processor_add` holds the record it has just filled in. */
  datatype Listener = Accepting | Holding(rec: nat) | Stopped

  /** A worker is waiting, inside `start_routine`, or between its `close` and `free`. */
  datatype Worker = Waiting | Serving(rec: nat) | Closing(rec: nat)

  datatype Registration = Registration(rec: nat, armed: bool)

  /** What a descriptor number currently stands for. */
  datatype Use = Socket(rec: nat) | Other

  datatype Kind = Accepted | Added | Taken | Closed | Freed

  datatype Event = Event(kind: Kind, thread: nat, rec: nat)

  /** Records are numbered in the order of their allocation; `fdOf[r]` is the field `fd` of record `r`. */
  datatype State = State(
    listeners: map<nat, Listener>,
    workers: map<nat, Worker>,
    fdOf: seq<nat>,
    epoll: map<nat, Registration>,
    table: map<nat, Use>,
    freed: set<nat>,
    history: seq<Event>)

  datatype Step =
    | Accept(l: nat, fd: nat)   // accept returns a number not in use; the record is allocated and filled
    | AcceptFails(l: nat)
    | Add(l: nat)               // processor_add
    | Wait(w: nat, fd: nat)     // epoll_wait reports an armed descriptor and disarms it
    | Wake(w: nat)              // epoll_wait returns without a record
    | Close(w: nat)             // the end of processor_state_routine
    | Free(w: nat)
    | OpenOther(fd: nat)        // files, directories and pipes opened while serving
    | CloseOther(fd: nat)

  ghost predicate Enabled(s: State, step: Step) {
    match step
    case Accept(l, fd) => l in s.listeners && s.listeners[l] == Accepting && fd !in s.table
    case AcceptFails(l) => l in s.listeners && s.listeners[l] == Accepting
    case Add(l) => l in s.listeners && s.listeners[l].Holding? && s.listeners[l].rec < |s.fdOf|
    case Wait(w, fd) => w in s.workers && s.workers[w] == Waiting && fd in s.epoll && s.epoll[fd].armed
    case Wake(w) => w in s.workers && s.workers[w] == Waiting
    case Close(w) => w in s.workers && s.workers[w].Serving? && s.workers[w].rec < |s.fdOf|
    case Free(w) => w in s.workers && s.workers[w].Closing?
    case OpenOther(fd) => fd !in s.table
    case CloseOther(fd) => fd in s.table && s.table[fd] == Other
  }

  /** The state after a step. Registering a number that is already registered fails (and the record
      would be lost); closing a number drops whatever it stands for, and its registration. */
  ghost function Apply(s: State, step: Step): State
    requires Enabled(s, step)
  {
    match step
    case Accept(l, fd) =>
      var r := |s.fdOf|;
      s.(listeners := s.listeners[l := Holding(r)], fdOf := s.fdOf + [fd], table := s.table[fd := Socket(r)],
         history := s.history + [Event(Accepted, l, r)])
    case AcceptFails(l) => s.(listeners := s.listeners[l := Stopped])
    case Add(l) =>
      var r := s.listeners[l].rec;
      var fd := s.fdOf[r];
      s.(listeners := s.listeners[l := Accepting],
         epoll := if fd in s.epoll then s.epoll else s.epoll[fd := Registration(r, true)],
         history := s.history + [Event(Added, l, r)])
    case Wait(w, fd) =>
      var r := s.epoll[fd].rec;
      s.(workers := s.workers[w := Serving(r)], epoll := s.epoll[fd := Registration(r, false)],
         history := s.history + [Event(Taken, w, r)])
    case Wake(w) => s
    case Close(w) =>
      var r := s.workers[w].rec;
      var fd := s.fdOf[r];
      s.(workers := s.workers[w := Closing(r)], table := s.table - {fd}, epoll := s.epoll - {fd},
         history := s.history + [Event(Closed, w, r)])
    case Free(w) =>
      var r := s.workers[w].rec;
      s.(workers := s.workers[w := Waiting], freed := s.freed + {r},
         history := s.history + [Event(Freed, w, r)])
    case OpenOther(fd) => s.(table := s.table[fd := Other])
    case CloseOther(fd) => s.(table := s.table - {fd})
  }

  ghost predicate Init(s: State) {
    && (forall l :: l in s.listeners ==> s.listeners[l] == Accepting)
    && (forall w :: w in s.workers ==> s.workers[w] == Waiting)
    && (forall fd :: fd in s.table ==> s.table[fd] == Other)
    && s.fdOf == [] && s.epoll == map[] && s.freed == {} && s.history == []
  }

  // ----- What holds in every reachable state

  datatype Owner = Listening(l: nat) | Registered | Served(w: nat) | Leaving(w: nat) | Gone

  /** Who has a record, read off the threads, the epoll set and the freed records alone. */
  ghost predicate Holds(s: State, o: Owner, r: nat) {
    match o
    case Listening(l) => l in s.listeners && s.listeners[l] == Holding(r)
    case Registered => exists fd :: fd in s.epoll && s.epoll[fd] == Registration(r, true)
    case Served(w) => w in s.workers && s.workers[w] == Serving(r)
    case Leaving(w) => w in s.workers && s.workers[w] == Closing(r)
    case Gone => r in s.freed
  }

  /** Its descriptor has not been closed yet. */
  predicate Live(o: Owner) { o.Listening? || o.Registered? || o.Served? }

  ghost function Life(h: seq<Event>, r: nat): (life: seq<Event>) {
    if h == [] then []
    else Life(h[..|h| - 1], r) + if h[|h| - 1].rec == r then [h[|h| - 1]] else []
  }

  const LIFE: seq<Kind> := [Accepted, Added, Taken, Closed, Freed]

  /** A beginning of: accepted and added by one listener; taken, closed and freed by one worker. */
  ghost predicate IsLife(life: seq<Event>) {
    && |life| <= 5
    && (forall i :: 0 <= i < |life| ==> life[i].kind == LIFE[i])
    && (|life| > 1 ==> life[1].thread == life[0].thread)
    && (|life| > 3 ==> life[3].thread == life[2].thread)
    && (|life| > 4 ==> life[4].thread == life[2].thread)
  }

  ghost predicate LifeOf(life: seq<Event>, o: Owner) {
    && IsLife(life)
    && match o
       case Listening(l) => |life| == 1 && life[0].thread == l
       case Registered => |life| == 2
       case Served(w) => |life| == 3 && life[2].thread == w
       case Leaving(w) => |life| == 4 && life[2].thread == w
       case Gone => |life| == 5
  }

  /** The inductive invariant: `own` gives every record its one owner, and every part of the state
      agrees with it. */
  ghost predicate Threads(s: State, own: seq<Owner>) {
    && (forall l :: l in s.listeners && s.listeners[l].Holding? ==>
          s.listeners[l].rec < |own| && own[s.listeners[l].rec] == Listening(l))
    && (forall w :: w in s.workers && s.workers[w].Serving? ==>
          s.workers[w].rec < |own| && own[s.workers[w].rec] == Served(w))
    && (forall w :: w in s.workers && s.workers[w].Closing? ==>
          s.workers[w].rec < |own| && own[s.workers[w].rec] == Leaving(w))
    && (forall r :: 0 <= r < |own| && own[r].Listening? ==>
          own[r].l in s.listeners && s.listeners[own[r].l] == Holding(r))
    && (forall r :: 0 <= r < |own| && own[r].Served? ==>
          own[r].w in s.workers && s.workers[own[r].w] == Serving(r))
    && (forall r :: 0 <= r < |own| && own[r].Leaving? ==>
          own[r].w in s.workers && s.workers[own[r].w] == Closing(r))
  }

  ghost predicate Descriptors(s: State, own: seq<Owner>)
    requires |own| == |s.fdOf|
  {
    && (forall fd :: fd in s.table && s.table[fd].Socket? ==>
          var r := s.table[fd].rec; r < |own| && Live(own[r]) && s.fdOf[r] == fd)
    && (forall r :: 0 <= r < |own| && Live(own[r]) ==> s.fdOf[r] in s.table && s.table[s.fdOf[r]] == Socket(r))
  }

  ghost predicate Interest(s: State, own: seq<Owner>)
    requires |own| == |s.fdOf|
  {
    && (forall fd :: fd in s.epoll ==>
          var r := s.epoll[fd].rec;
          && r < |own|
          && s.fdOf[r] == fd
          && (if s.epoll[fd].armed then own[r] == Registered else own[r].Served?))
    && (forall r :: 0 <= r < |own| && own[r] == Registered ==>
          s.fdOf[r] in s.epoll && s.epoll[s.fdOf[r]] == Registration(r, true))
  }

  ghost predicate Bookkeeping(s: State, own: seq<Owner>) {
    && (forall r: nat :: r in s.freed <==> r < |own| && own[r] == Gone)
    && (forall r :: 0 <= r < |own| ==> LifeOf(Life(s.history, r), own[r]))
    && (forall e :: e in s.history ==> e.rec < |own|)
  }

  ghost predicate Inv(s: State, own: seq<Owner>) {
    |own| == |s.fdOf| && Threads(s, own) && Descriptors(s, own) && Interest(s, own) && Bookkeeping(s, own)
  }

  /** How a step moves ownership. */
  ghost function Owners(s: State, step: Step, own: seq<Owner>): seq<Owner>
    requires Enabled(s, step) && Inv(s, own)
  {
    match step
    case Accept(l, fd) => own + [Listening(l)]
    case Add(l) => own[s.listeners[l].rec := Registered]
    case Wait(w, fd) => own[s.epoll[fd].rec := Served(w)]
    case Close(w) => own[s.workers[w].rec := Leaving(w)]
    case Free(w) => own[s.workers[w].rec := Gone]
    case _ => own
  }

  lemma {:induction false} LifeMore(h: seq<Event>, e: Event, r: nat)
    ensures Life(h + [e], r) == Life(h, r) + if e.rec == r then [e] else []
  {
    assert (h + [e])[..|h|] == h;
  }

  lemma {:induction false} LifeNone(h: seq<Event>, r: nat)
    requires forall e :: e in h ==> e.rec != r
    ensures Life(h, r) == []
  {
    if h != [] { LifeNone(h[..|h| - 1], r); }
  }

  /** Whose record the step moves. */
  lemma {:induction false} Mover(s: State, step: Step, own: seq<Owner>)
    requires Enabled(s, step) && Inv(s, own)
    ensures match step
            case Add(l) => own[s.listeners[l].rec] == Listening(l)
            case Wait(_, fd) => var r := s.epoll[fd].rec; r < |own| && own[r] == Registered && s.fdOf[r] == fd
            case Close(w) => own[s.workers[w].rec] == Served(w)
            case Free(w) => s.workers[w].rec < |own| && own[s.workers[w].rec] == Leaving(w)
            case _ => true
  {
    hide Bookkeeping, Descriptors;
  }

  lemma {:induction false} KeepsAccept(s: State, step: Step, own: seq<Owner>)
    requires step.Accept? && Enabled(s, step) && Inv(s, own)
    ensures var s', own' := Apply(s, step), Owners(s, step, own);
            |own'| == |s'.fdOf| && Threads(s', own') && Descriptors(s', own') && Interest(s', own')
  {
    hide Bookkeeping;
  }

  /** A record changes hands, its socket staying open or staying closed. */
  lemma {:induction false} DescriptorsMove(s: State, s': State, own: seq<Owner>, r: nat, o: Owner)
    requires r < |own| == |s.fdOf| && Descriptors(s, own)
    requires s'.fdOf == s.fdOf && s'.table == s.table && (Live(own[r]) <==> Live(o))
    ensures Descriptors(s', own[r := o])
  {
  }

  lemma {:induction false} DescriptorsClose(s: State, s': State, own: seq<Owner>, r: nat, o: Owner)
    requires r < |own| == |s.fdOf| && Descriptors(s, own)
    requires s'.fdOf == s.fdOf && s'.table == s.table - {s.fdOf[r]} && Live(own[r]) && !Live(o)
    ensures Descriptors(s', own[r := o])
  {
  }

  /** While a listener holds a record, its number is not registered, for whatever record. */
  lemma {:induction false} NotRegistered(s: State, own: seq<Owner>, r: nat)
    requires r < |own| == |s.fdOf| && Descriptors(s, own) && Interest(s, own) && own[r].Listening?
    ensures s.fdOf[r] !in s.epoll
  {
    forall q | 0 <= q < |own| && Live(own[q]) && q != r
      ensures s.fdOf[q] != s.fdOf[r]
    {
      assert s.table[s.fdOf[q]] == Socket(q) && s.table[s.fdOf[r]] == Socket(r);
    }
  }

  lemma {:induction false} InterestAdd(s: State, s': State, own: seq<Owner>, r: nat)
    requires r < |own| == |s.fdOf| && Interest(s, own) && own[r].Listening? && s.fdOf[r] !in s.epoll
    requires s'.fdOf == s.fdOf && s'.epoll == s.epoll[s.fdOf[r] := Registration(r, true)]
    ensures Interest(s', own[r := Registered])
  {
  }

  lemma {:induction false} InterestWait(s: State, s': State, own: seq<Owner>, r: nat, w: nat)
    requires r < |own| == |s.fdOf| && Interest(s, own) && own[r] == Registered
    requires s'.fdOf == s.fdOf && s'.epoll == s.epoll[s.fdOf[r] := Registration(r, false)]
    ensures Interest(s', own[r := Served(w)])
  {
  }

  /** Nothing but the record itself is registered under the number of an open socket. */
  lemma {:induction false} InterestClose(s: State, s': State, own: seq<Owner>, r: nat, w: nat)
    requires r < |own| == |s.fdOf| && Descriptors(s, own) && Interest(s, own) && own[r].Served?
    requires s'.fdOf == s.fdOf && s'.epoll == s.epoll - {s.fdOf[r]}
    ensures Interest(s', own[r := Leaving(w)])
  {
    forall q | 0 <= q < |own| && own[q] == Registered
      ensures s.fdOf[q] != s.fdOf[r]
    {
      assert s.table[s.fdOf[q]] == Socket(q) && s.table[s.fdOf[r]] == Socket(r);
    }
  }

  lemma {:induction false} InterestFree(s: State, s': State, own: seq<Owner>, r: nat)
    requires r < |own| == |s.fdOf| && Interest(s, own) && own[r].Leaving?
    requires s'.fdOf == s.fdOf && s'.epoll == s.epoll
    ensures Interest(s', own[r := Gone])
  {
  }

  lemma {:induction false} KeepsAddThreads(s: State, step: Step, own: seq<Owner>)
    requires step.Add? && Enabled(s, step) && Inv(s, own)
    ensures |Owners(s, step, own)| == |Apply(s, step).fdOf| && Threads(Apply(s, step), Owners(s, step, own))
  {
    hide Bookkeeping, Descriptors;
  }

  lemma {:induction false} KeepsAdd(s: State, step: Step, own: seq<Owner>)
    requires step.Add? && Enabled(s, step) && Inv(s, own)
    ensures var s', own' := Apply(s, step), Owners(s, step, own);
            |own'| == |s'.fdOf| && Threads(s', own') && Descriptors(s', own') && Interest(s', own')
  {
    hide Bookkeeping, Threads, Descriptors, Interest;
    Mover(s, step, own);
    var s', r := Apply(s, step), s.listeners[step.l].rec;
    KeepsAddThreads(s, step, own);
    DescriptorsMove(s, s', own, r, Registered);
    NotRegistered(s, own, r);
    InterestAdd(s, s', own, r);
  }

  lemma {:induction false} KeepsWaitThreads(s: State, step: Step, own: seq<Owner>)
    requires step.Wait? && Enabled(s, step) && Inv(s, own)
    ensures |Owners(s, step, own)| == |Apply(s, step).fdOf| && Threads(Apply(s, step), Owners(s, step, own))
  {
    hide Bookkeeping, Descriptors;
  }

  lemma {:induction false} KeepsWait(s: State, step: Step, own: seq<Owner>)
    requires step.Wait? && Enabled(s, step) && Inv(s, own)
    ensures var s', own' := Apply(s, step), Owners(s, step, own);
            |own'| == |s'.fdOf| && Threads(s', own') && Descriptors(s', own') && Interest(s', own')
  {
    hide Bookkeeping, Threads, Descriptors, Interest;
    Mover(s, step, own);
    var s', r := Apply(s, step), s.epoll[step.fd].rec;
    KeepsWaitThreads(s, step, own);
    DescriptorsMove(s, s', own, r, Served(step.w));
    InterestWait(s, s', own, r, step.w);
  }

  lemma {:induction false} KeepsCloseThreads(s: State, step: Step, own: seq<Owner>)
    requires step.Close? && Enabled(s, step) && Inv(s, own)
    ensures |Owners(s, step, own)| == |Apply(s, step).fdOf| && Threads(Apply(s, step), Owners(s, step, own))
  {
    hide Bookkeeping, Descriptors;
  }

  lemma {:induction false} KeepsClose(s: State, step: Step, own: seq<Owner>)
    requires step.Close? && Enabled(s, step) && Inv(s, own)
    ensures var s', own' := Apply(s, step), Owners(s, step, own);
            |own'| == |s'.fdOf| && Threads(s', own') && Descriptors(s', own') && Interest(s', own')
  {
    hide Bookkeeping, Threads, Descriptors, Interest;
    Mover(s, step, own);
    var s', r := Apply(s, step), s.workers[step.w].rec;
    KeepsCloseThreads(s, step, own);
    DescriptorsClose(s, s', own, r, Leaving(step.w));
    InterestClose(s, s', own, r, step.w);
  }

  lemma {:induction false} KeepsFreeThreads(s: State, step: Step, own: seq<Owner>)
    requires step.Free? && Enabled(s, step) && Inv(s, own)
    ensures |Owners(s, step, own)| == |Apply(s, step).fdOf| && Threads(Apply(s, step), Owners(s, step, own))
  {
    hide Bookkeeping, Descriptors;
  }

  lemma {:induction false} KeepsFree(s: State, step: Step, own: seq<Owner>)
    requires step.Free? && Enabled(s, step) && Inv(s, own)
    ensures var s', own' := Apply(s, step), Owners(s, step, own);
            |own'| == |s'.fdOf| && Threads(s', own') && Descriptors(s', own') && Interest(s', own')
  {
    hide Bookkeeping, Threads, Descriptors, Interest;
    Mover(s, step, own);
    var s', r := Apply(s, step), s.workers[step.w].rec;
    KeepsFreeThreads(s, step, own);
    DescriptorsMove(s, s', own, r, Gone);
    InterestFree(s, s', own, r);
  }

  lemma {:induction false} KeepsOtherThreads(s: State, step: Step, own: seq<Owner>)
    requires step.AcceptFails? || step.Wake? || step.OpenOther? || step.CloseOther?
    requires Enabled(s, step) && Inv(s, own)
    ensures |own| == |Apply(s, step).fdOf| && Threads(Apply(s, step), own)
  {
    hide Bookkeeping, Descriptors, Interest;
  }

  lemma {:induction false} KeepsOtherDescriptors(s: State, step: Step, own: seq<Owner>)
    requires step.AcceptFails? || step.Wake? || step.OpenOther? || step.CloseOther?
    requires Enabled(s, step) && Inv(s, own)
    ensures |own| == |Apply(s, step).fdOf| && Descriptors(Apply(s, step), own) && Interest(Apply(s, step), own)
  {
    hide Bookkeeping, Threads;
  }

  lemma {:induction false} KeepsOther(s: State, step: Step, own: seq<Owner>)
    requires step.AcceptFails? || step.Wake? || step.OpenOther? || step.CloseOther?
    requires Enabled(s, step) && Inv(s, own)
    ensures var s', own' := Apply(s, step), Owners(s, step, own);
            |own'| == |s'.fdOf| && Threads(s', own') && Descriptors(s', own') && Interest(s', own')
  {
    hide Bookkeeping, Threads, Descriptors, Interest;
    KeepsOtherThreads(s, step, own);
    KeepsOtherDescriptors(s, step, own);
  }

  /** A life grows by the one event that moves the record to its next owner. */
  lemma {:induction false} LifeGrows(life: seq<Event>, o: Owner, e: Event)
    requires LifeOf(life, o)
    ensures e.kind == Added && o == Listening(e.thread) ==> LifeOf(life + [e], Registered)
    ensures e.kind == Taken && o == Registered ==> LifeOf(life + [e], Served(e.thread))
    ensures e.kind == Closed && o == Served(e.thread) ==> LifeOf(life + [e], Leaving(e.thread))
    ensures e.kind == Freed && o == Leaving(e.thread) ==> LifeOf(life + [e], Gone)
  {
  }

  lemma LifeStarts(l: nat, r: nat)
    ensures LifeOf([Event(Accepted, l, r)], Listening(l))
  {
  }

  /** The events of record `r`, one step on. */
  lemma {:induction false} KeepsLife(s: State, step: Step, own: seq<Owner>, r: nat)
    requires Enabled(s, step) && Inv(s, own) && r < |Owners(s, step, own)|
    ensures LifeOf(Life(Apply(s, step).history, r), Owners(s, step, own)[r])
  {
    hide Descriptors, Life, LifeOf;
    var s' := Apply(s, step);
    if s'.history != s.history {
      var e := s'.history[|s.history|];
      assert s'.history == s.history + [e];
      LifeMore(s.history, e, r);
      if step.Accept? && r == |own| {
        LifeNone(s.history, r);
        LifeStarts(step.l, r);
        assert Life(s'.history, r) == [e];
      } else {
        assert e.rec != r ==> Life(s'.history, r) == Life(s.history, r);
        LifeGrows(Life(s.history, r), own[r], e);
      }
    }
  }

  lemma {:induction false} KeepsFreed(s: State, step: Step, own: seq<Owner>)
    requires Enabled(s, step) && Inv(s, own)
    ensures var s', own' := Apply(s, step), Owners(s, step, own);
            && (forall r: nat :: r in s'.freed <==> r < |own'| && own'[r] == Gone)
            && (forall e :: e in s'.history ==> e.rec < |own'|)
  {
    hide Descriptors, LifeOf;
  }

  lemma {:induction false} KeepsBookkeeping(s: State, step: Step, own: seq<Owner>)
    requires Enabled(s, step) && Inv(s, own)
    ensures Bookkeeping(Apply(s, step), Owners(s, step, own))
  {
    hide Inv, Enabled, Apply, Owners, Life, LifeOf;
    KeepsFreed(s, step, own);
    var s', own' := Apply(s, step), Owners(s, step, own);
    forall r: nat | r < |own'|
      ensures LifeOf(Life(s'.history, r), own'[r])
    {
      KeepsLife(s, step, own, r);
    }
  }

  lemma {:induction false} Keeps(s: State, step: Step, own: seq<Owner>)
    requires Enabled(s, step) && Inv(s, own)
    ensures Inv(Apply(s, step), Owners(s, step, own))
  {
    hide *;
    KeepsBookkeeping(s, step, own);
    match step
    case Accept(_, _) => KeepsAccept(s, step, own); Join(Apply(s, step), Owners(s, step, own));
    case Add(_) => KeepsAdd(s, step, own); Join(Apply(s, step), Owners(s, step, own));
    case Wait(_, _) => KeepsWait(s, step, own); Join(Apply(s, step), Owners(s, step, own));
    case Close(_) => KeepsClose(s, step, own); Join(Apply(s, step), Owners(s, step, own));
    case Free(_) => KeepsFree(s, step, own); Join(Apply(s, step), Owners(s, step, own));
    case _ => KeepsOther(s, step, own); Join(Apply(s, step), Owners(s, step, own));
  }

  lemma Join(s: State, own: seq<Owner>)
    requires |own| == |s.fdOf| && Threads(s, own) && Descriptors(s, own) && Interest(s, own) && Bookkeeping(s, own)
    ensures Inv(s, own)
  {
  }

  // ----- Every run

  /** A run of the server: any steps of any threads, one after the other. */
  ghost predicate IsRun(states: seq<State>, steps: seq<Step>) {
    && |states| == |steps| + 1
    && Init(states[0])
    && (forall i :: 0 <= i < |steps| ==> Enabled(states[i], steps[i]) && states[i + 1] == Apply(states[i], steps[i]))
  }

  lemma {:induction false} Reachable(states: seq<State>, steps: seq<Step>, n: nat) returns (own: seq<Owner>)
    requires IsRun(states, steps) && n <= |steps|
    ensures Inv(states[n], own)
  {
    hide Inv, Enabled, Apply, Owners;
    if n == 0 {
      own := [];
      InitiallyInv(states[0]);
    } else {
      var before := Reachable(states, steps, n - 1);
      assert Enabled(states[n - 1], steps[n - 1]) && states[n - 1 + 1] == Apply(states[n - 1], steps[n - 1]);
      own := Owners(states[n - 1], steps[n - 1], before);
      Keeps(states[n - 1], steps[n - 1], before);
    }
  }

  lemma InitiallyInv(s: State)
    requires Init(s)
    ensures Inv(s, [])
  {
  }

  /** No `close` of the record's descriptor has happened. */
  ghost predicate Unclosed(s: State, r: nat) {
    r < |s.fdOf| && forall e :: e in s.history ==> !(e.kind == Closed && e.rec == r)
  }

  lemma {:induction false} LifeIn(h: seq<Event>, r: nat)
    ensures forall e :: e in Life(h, r) ==> e in h && e.rec == r
  {
    if h != [] { LifeIn(h[..|h| - 1], r); }
  }

  lemma {:induction false} OneOwner(s: State, own: seq<Owner>, r: nat)
    requires Inv(s, own) && r < |own|
    ensures Holds(s, own[r], r) && forall o :: Holds(s, o, r) ==> o == own[r]
  {
    hide LifeOf, Life;
  }

  lemma {:induction false} UnclosedLive(s: State, own: seq<Owner>, r: nat)
    requires Inv(s, own) && Unclosed(s, r)
    ensures Live(own[r])
  {
    var life := Life(s.history, r);
    LifeIn(s.history, r);
    assert LifeOf(life, own[r]);
    forall i | 0 <= i < |life|
      ensures life[i].kind != Closed
    {
      assert life[i] in life;
    }
  }

  ghost predicate HasOneOwner(s: State, r: nat) {
    exists o :: Holds(s, o, r) && forall o' :: Holds(s, o', r) ==> o' == o
  }

  /** In every state of every run: each accepted record has exactly one owner among the listeners, the
      epoll set, the workers and the freed records; its events so far are a beginning of accepted,
      added, taken by one worker, closed once and freed once by that worker; and two records whose
      descriptors are not closed yet have different numbers, however often numbers are reused. */
  lemma {:induction false} SafeHandoff(states: seq<State>, steps: seq<Step>, n: nat)
    requires IsRun(states, steps) && n <= |steps|
    ensures var s := states[n];
            && (forall r: nat :: r < |s.fdOf| ==> HasOneOwner(s, r))
            && (forall r: nat :: r < |s.fdOf| ==> IsLife(Life(s.history, r)))
            && (forall q: nat, r: nat :: Unclosed(s, q) && Unclosed(s, r) && q != r ==> s.fdOf[q] != s.fdOf[r])
  {
    hide Enabled, Apply, Holds, Life, IsLife, Threads, Interest, Unclosed, Inv;
    var s := states[n];
    var own := Reachable(states, steps, n);
    forall r: nat | r < |s.fdOf|
      ensures HasOneOwner(s, r)
      ensures IsLife(Life(s.history, r))
    {
      Facts(s, own, r);
      OneOwner(s, own, r);
    }
    forall q: nat, r: nat | Unclosed(s, q) && Unclosed(s, r) && q != r
      ensures q < |s.fdOf| && r < |s.fdOf| && s.fdOf[q] != s.fdOf[r]
    {
      Distinct(s, own, q, r);
    }
  }

  lemma {:induction false} Facts(s: State, own: seq<Owner>, r: nat)
    requires Inv(s, own) && r < |s.fdOf|
    ensures |own| == |s.fdOf| && IsLife(Life(s.history, r))
  {
    assert LifeOf(Life(s.history, r), own[r]);
  }

  lemma {:induction false} Distinct(s: State, own: seq<Owner>, q: nat, r: nat)
    requires Inv(s, own) && Unclosed(s, q) && Unclosed(s, r) && q != r
    ensures q < |s.fdOf| && r < |s.fdOf| && s.fdOf[q] != s.fdOf[r]
  {
    UnclosedLive(s, own, q);
    UnclosedLive(s, own, r);
  }

  /** And no step harms another connection: a worker closes the socket of its own record, and a listener
      never finds its new number still registered. */
  lemma {:induction false} StepsMeanTheirOwn(states: seq<State>, steps: seq<Step>, n: nat)
    requires IsRun(states, steps) && n < |steps|
    ensures var s := states[n];
            match steps[n]
            case Close(w) =>
              var rec := s.workers[w].rec;
              s.fdOf[rec] in s.table && s.table[s.fdOf[rec]] == Socket(rec)
            case Add(l) => s.fdOf[s.listeners[l].rec] !in s.epoll
            case _ => true
  {
    hide Apply, Bookkeeping;
    var own := Reachable(states, steps, n);
    assert Enabled(states[n], steps[n]);
  }

  // ----- No connection is lost

  /** In every state of every run the owner of a record can go on with it: a listener can register it, any
      waiting worker can take it and gets this record, and its worker can close and free it. */
  lemma {:induction false} NeverStuck(states: seq<State>, steps: seq<Step>, n: nat, r: nat, o: Owner)
    requires IsRun(states, steps) && n <= |steps| && r < |states[n].fdOf| && Holds(states[n], o, r)
    ensures var s := states[n];
            match o
            case Listening(l) => Enabled(s, Add(l)) && Holds(Apply(s, Add(l)), Registered, r)
            case Registered =>
              forall w :: w in s.workers && s.workers[w] == Waiting ==>
                Enabled(s, Wait(w, s.fdOf[r])) && Holds(Apply(s, Wait(w, s.fdOf[r])), Served(w), r)
            case Served(w) => Enabled(s, Close(w)) && Holds(Apply(s, Close(w)), Leaving(w), r)
            case Leaving(w) => Enabled(s, Free(w)) && Holds(Apply(s, Free(w)), Gone, r)
            case Gone => true
  {
    hide Inv, Enabled, Apply, Holds;
    var own := Reachable(states, steps, n);
    GoesOn(states[n], own, r, o);
  }

  lemma {:induction false} GoesOn(s: State, own: seq<Owner>, r: nat, o: Owner)
    requires Inv(s, own) && r < |s.fdOf| && Holds(s, o, r)
    ensures o.Listening? ==> Enabled(s, Add(o.l)) && Holds(Apply(s, Add(o.l)), Registered, r)
    ensures o.Registered? ==>
              forall w :: w in s.workers && s.workers[w] == Waiting ==>
                Enabled(s, Wait(w, s.fdOf[r])) && Holds(Apply(s, Wait(w, s.fdOf[r])), Served(w), r)
    ensures o.Served? ==> Enabled(s, Close(o.w)) && Holds(Apply(s, Close(o.w)), Leaving(o.w), r)
    ensures o.Leaving? ==> Enabled(s, Free(o.w)) && Holds(Apply(s, Free(o.w)), Gone, r)
  {
    hide Bookkeeping;
    if o.Listening? {
      NotRegistered(s, own, r);
      var s' := Apply(s, Add(o.l));
      assert s'.epoll[s.fdOf[r]] == Registration(r, true);
    }
  }

  lemma {:induction false} RunMore(states: seq<State>, steps: seq<Step>, step: Step)
      returns (states': seq<State>, steps': seq<Step>)
    requires IsRun(states, steps) && |states| == |steps| + 1 && Enabled(states[|steps|], step)
    ensures IsRun(states', steps') && |states'| == |steps'| + 1
    ensures steps' == steps + [step] && states <= states' && states'[|steps'|] == Apply(states[|steps|], step)
  {
    hide Apply, Enabled, Init;
    states', steps' := states + [Apply(states[|steps|], step)], steps + [step];
  }

  lemma {:induction false} FreeNumber(s: State, own: seq<Owner>, fd: nat)
    requires Inv(s, own) && fd !in s.table
    ensures fd !in s.epoll && Life(s.history, |s.fdOf|) == []
  {
    LifeNone(s.history, |s.fdOf|);
  }

  function WholeLife(l: nat, w: nat, r: nat): seq<Event> {
    [Event(Accepted, l, r), Event(Added, l, r), Event(Taken, w, r), Event(Closed, w, r), Event(Freed, w, r)]
  }

  lemma {:induction false} LifeOfAll(h: seq<Event>, l: nat, w: nat, r: nat)
    requires Life(h, r) == []
    ensures var e := WholeLife(l, w, r); Life(h + [e[0]] + [e[1]] + [e[2]] + [e[3]] + [e[4]], r) == e
  {
    hide Life;
    var e := WholeLife(l, w, r);
    LifeMore(h, e[0], r);
    LifeMore(h + [e[0]], e[1], r);
    LifeMore(h + [e[0]] + [e[1]], e[2], r);
    LifeMore(h + [e[0]] + [e[1]] + [e[2]], e[3], r);
    LifeMore(h + [e[0]] + [e[1]] + [e[2]] + [e[3]], e[4], r);
  }

  lemma {:induction false} TwoStepsIn(s: State, l: nat, fd: nat)
    requires l in s.listeners && s.listeners[l] == Accepting && fd !in s.table && fd !in s.epoll
    ensures Enabled(s, Accept(l, fd)) && Enabled(Apply(s, Accept(l, fd)), Add(l))
    ensures var r := |s.fdOf|;
            Apply(Apply(s, Accept(l, fd)), Add(l)) ==
            s.(fdOf := s.fdOf + [fd], table := s.table[fd := Socket(r)],
               epoll := s.epoll[fd := Registration(r, true)],
               history := s.history + [Event(Accepted, l, r)] + [Event(Added, l, r)])
  {
    var s' := Apply(Apply(s, Accept(l, fd)), Add(l));
    assert s'.listeners == s.listeners;
  }

  lemma {:induction false} ThreeStepsOut(s: State, w: nat, fd: nat)
    requires w in s.workers && s.workers[w] == Waiting && fd in s.epoll && s.epoll[fd].armed
    requires s.epoll[fd].rec < |s.fdOf| && s.fdOf[s.epoll[fd].rec] == fd
    ensures Enabled(s, Wait(w, fd))
    ensures var s1 := Apply(s, Wait(w, fd));
            Enabled(s1, Close(w)) && Enabled(Apply(s1, Close(w)), Free(w))
    ensures var r := s.epoll[fd].rec;
            Apply(Apply(Apply(s, Wait(w, fd)), Close(w)), Free(w)) ==
            s.(table := s.table - {fd}, epoll := s.epoll - {fd}, freed := s.freed + {r},
               history := s.history + [Event(Taken, w, r)] + [Event(Closed, w, r)] + [Event(Freed, w, r)])
  {
    var s' := Apply(Apply(Apply(s, Wait(w, fd)), Close(w)), Free(w));
    assert s'.workers == s.workers && s'.epoll == s.epoll - {fd};
  }

  /** Every run can go on with a whole life: wherever a listener is accepting and a worker waiting, a new
      connection can be accepted, added, taken, closed and freed, and then everything else is as it was. */
  lemma {:induction false} ServesAnother(states: seq<State>, steps: seq<Step>, l: nat, w: nat, fd: nat)
      returns (states': seq<State>, steps': seq<Step>)
    requires IsRun(states, steps) && |states| == |steps| + 1
    requires var s := states[|steps|];
             l in s.listeners && s.listeners[l] == Accepting && w in s.workers && s.workers[w] == Waiting
             && fd !in s.table
    ensures IsRun(states', steps') && |states'| == |steps'| + 1
    ensures steps' == steps + [Accept(l, fd)] + [Add(l)] + [Wait(w, fd)] + [Close(w)] + [Free(w)]
    ensures states <= states'
    ensures var s, s' := states[|steps|], states'[|steps'|];
            var r := |s.fdOf|;
            && Life(s'.history, r) == WholeLife(l, w, r)
            && s' == s.(fdOf := s.fdOf + [fd], freed := s.freed + {r}, history := s'.history)
  {
    hide IsRun, Inv, Life, Enabled, Apply;
    var s := states[|steps|];
    var r := |s.fdOf|;
    var own := Reachable(states, steps, |steps|);
    FreeNumber(s, own, fd);
    TwoStepsIn(s, l, fd);
    var in1, st1 := RunMore(states, steps, Accept(l, fd));
    var in2, st2 := RunMore(in1, st1, Add(l));
    states', steps' := RunOut(in2, st2, w, fd);
    LifeOfAll(s.history, l, w, r);
    PutBack(s.table, fd, Socket(r));
    PutBack(s.epoll, fd, Registration(r, true));
  }

  lemma {:induction false} RunOut(states: seq<State>, steps: seq<Step>, w: nat, fd: nat)
      returns (states': seq<State>, steps': seq<Step>)
    requires IsRun(states, steps) && |states| == |steps| + 1
    requires var s := states[|steps|];
             && w in s.workers && s.workers[w] == Waiting && fd in s.epoll && s.epoll[fd].armed
             && s.epoll[fd].rec < |s.fdOf| && s.fdOf[s.epoll[fd].rec] == fd
    ensures IsRun(states', steps') && |states'| == |steps'| + 1
    ensures steps' == steps + [Wait(w, fd)] + [Close(w)] + [Free(w)]
    ensures states <= states'
    ensures var s := states[|steps|];
            var r := s.epoll[fd].rec;
            states'[|steps'|] ==
            s.(table := s.table - {fd}, epoll := s.epoll - {fd}, freed := s.freed + {r},
               history := s.history + [Event(Taken, w, r)] + [Event(Closed, w, r)] + [Event(Freed, w, r)])
  {
    hide IsRun, Enabled, Apply;
    ThreeStepsOut(states[|steps|], w, fd);
    var out1, st1 := RunMore(states, steps, Wait(w, fd));
    var out2, st2 := RunMore(out1, st1, Close(w));
    states', steps' := RunMore(out2, st2, Free(w));
  }

  lemma PutBack<T>(m: map<nat, T>, k: nat, v: T)
    requires k !in m
    ensures m[k := v] - {k} == m
  {
  }
}
