/** Every run of the locking protocol is equivalent to running the operations one after the other. */
module NvramRuns {
  import opened CanonicalCode
  import opened NvramStore
  import opened NvramFlash
  import opened NvramProtocol

  /** Where a process is; `ticket` is the place of its operation in the log. */
  datatype Proc =
    | Idle
    | Locking(op: Op, taken: nat)
    | Working(op: Op, done: nat, local: Local, ticket: nat)
    | Unlocking(op: Op, left: nat, result: Result, ticket: nat)

  /** An operation in the order in which the locks were granted, with the answer it must give. */
  datatype Entry = Entry(pid: nat, op: Op, answer: Result)

  datatype State = State(procs: seq<Proc>, owner: map<Path, nat>, files: Files, log: seq<Entry>)

  datatype Action =
    | Begin(op: Op)
    | Acquire
    | SystemCall
    | Finish
    | Release
    | Leave

  function Held(p: Proc): set<Path>
    requires p.Locking? ==> p.taken <= |Locks(p.op)|
    requires p.Unlocking? ==> p.left <= |Locks(p.op)|
  {
    match p
    case Idle => {}
    case Locking(op, n) => set q | q in Locks(op)[..n]
    case Working(op, _, _, _) => set q | q in Locks(op)
    case Unlocking(op, n, _, _) => set q | q in Locks(op)[..n]
  }

  predicate InRange(p: Proc)
  {
    match p
    case Idle => true
    case Locking(op, n) => ValidOp(op) && n < |Locks(op)|
    case Working(op, k, _, _) => ValidOp(op) && k <= Calls(op)
    case Unlocking(op, n, _, _) => ValidOp(op) && n <= |Locks(op)|
  }

  /** The sequential run of a log. */
  function After(f: Files, log: seq<Entry>): Files
  {
    if log == [] then f else Effect(log[|log| - 1].op, After(f, log[..|log| - 1]))
  }

  // ----- the steps

  predicate Enabled(s: State, i: nat, a: Action)
  {
    i < |s.procs| && InRange(s.procs[i]) &&
    match a
    case Begin(op) => s.procs[i].Idle? && ValidOp(op)
    case Acquire => s.procs[i].Locking? && Locks(s.procs[i].op)[s.procs[i].taken] !in s.owner
    case SystemCall => s.procs[i].Working? && s.procs[i].done < Calls(s.procs[i].op)
    case Finish => s.procs[i].Working? && s.procs[i].done == Calls(s.procs[i].op)
    case Release => s.procs[i].Unlocking? && s.procs[i].left > 0
    case Leave => s.procs[i].Unlocking? && s.procs[i].left == 0
  }

  function Goto(s: State, i: nat, p: Proc): State
    requires i < |s.procs|
  {
    s.(procs := s.procs[i := p])
  }

  /** One step of process `i`; `start` is the state of the files before the run. */
  function Step(start: Files, s: State, i: nat, a: Action): State
    requires Enabled(s, i, a)
  {
    var p := s.procs[i];
    match a
    case Begin(op) => Goto(s, i, Locking(op, 0))
    case Acquire => Grant(start, s, i)
    case SystemCall =>
      var (f, l) := Call(p.op, p.done, s.files, p.local);
      Goto(s, i, Working(p.op, p.done + 1, l, p.ticket)).(files := f)
    case Finish => Goto(s, i, Unlocking(p.op, |Locks(p.op)|, Returned(p.op, p.local), p.ticket))
    case Release =>
      Goto(s, i, Unlocking(p.op, p.left - 1, p.result, p.ticket)).(owner := s.owner - {Locks(p.op)[p.left - 1]})
    case Leave => Goto(s, i, Idle)
  }

  /** A lock is granted; with the last one the operation takes its place in the log. */
  function Grant(start: Files, s: State, i: nat): State
    requires Enabled(s, i, Acquire)
  {
    var p := s.procs[i];
    var t := s.(owner := s.owner[Locks(p.op)[p.taken] := i]);
    if p.taken + 1 < |Locks(p.op)| then Goto(t, i, Locking(p.op, p.taken + 1))
    else
      var entry := Entry(i, p.op, Answer(p.op, After(start, s.log)));
      Goto(t, i, Working(p.op, 0, NOTHING, |s.log|)).(log := s.log + [entry])
  }

  // ----- what every step keeps

  /** The lock table says who holds what, and nobody holds what another holds. */
  ghost predicate LocksOk(s: State)
  {
    && (forall i :: 0 <= i < |s.procs| ==> InRange(s.procs[i]))
    && (forall i, q :: 0 <= i < |s.procs| ==> (q in Held(s.procs[i]) <==> q in s.owner && s.owner[q] == i))
    && (forall q :: q in s.owner ==> s.owner[q] < |s.procs|)
  }

  /** The remaining calls of a working process complete what the log says it does. */
  ghost predicate OnTrack(s: State, spec: Files, i: nat)
    requires i < |s.procs| && InRange(s.procs[i])
  {
    var p := s.procs[i];
    p.Working? ==>
      var (f, l) := CallsFrom(p.op, p.done, s.files, p.local);
      && p.ticket < |s.log| && s.log[p.ticket] == Entry(i, p.op, Returned(p.op, l))
      && AgreeOn(f, spec, Locks(p.op))
  }

  ghost predicate Answered(s: State, i: nat)
    requires i < |s.procs|
  {
    var p := s.procs[i];
    p.Unlocking? ==> p.ticket < |s.log| && s.log[p.ticket] == Entry(i, p.op, p.result)
  }

  /** Nobody is working on this file. */
  ghost predicate Quiet(s: State, q: Path)
    requires forall i :: 0 <= i < |s.procs| ==> InRange(s.procs[i])
  {
    forall i :: 0 <= i < |s.procs| && s.procs[i].Working? ==> q !in Held(s.procs[i])
  }

  /** Each answer in the log is the one of the sequential run. */
  ghost predicate Sequential(start: Files, log: seq<Entry>)
  {
    forall j :: 0 <= j < |log| ==> log[j].answer == Answer(log[j].op, After(start, log[..j]))
  }

  ghost predicate Inv(start: Files, s: State)
  {
    && LocksOk(s) && Sequential(start, s.log)
    && (forall i :: 0 <= i < |s.procs| ==> OnTrack(s, After(start, s.log), i) && Answered(s, i))
    && (forall q :: Quiet(s, q) ==> Agree(s.files, After(start, s.log), q))
  }

  predicate Initial(start: Files, s: State)
  {
    s.files == start && s.owner == map[] && s.log == [] && forall i :: 0 <= i < |s.procs| ==> s.procs[i].Idle?
  }

  lemma InitialInv(start: Files, s: State)
    requires Initial(start, s)
    ensures Inv(start, s)
  {
    Reflexive(start);
  }

  /** A lock has one holder. */
  lemma Exclusive(s: State, i: nat, j: nat, q: Path)
    requires LocksOk(s) && i < |s.procs| && j < |s.procs| && q in Held(s.procs[i]) && q in Held(s.procs[j])
    ensures i == j
  {
    hide Held;
    assert s.owner[q] == i && s.owner[q] == j;
  }

  // ----- the lock table

  lemma LocksUnchanged(s: State, i: nat, p: Proc)
    requires LocksOk(s) && i < |s.procs| && InRange(p) && Held(p) == Held(s.procs[i])
    ensures LocksOk(Goto(s, i, p))
  {
    hide Held;
  }

  lemma LocksTaken(s: State, i: nat, p: Proc, q: Path)
    requires LocksOk(s) && i < |s.procs| && InRange(p) && q !in s.owner && Held(p) == Held(s.procs[i]) + {q}
    ensures LocksOk(Goto(s, i, p).(owner := s.owner[q := i]))
  {
    hide Held;
    var t := Goto(s, i, p).(owner := s.owner[q := i]);
    forall j, r | 0 <= j < |t.procs|
      ensures r in Held(t.procs[j]) <==> r in t.owner && t.owner[r] == j
    {
      assert r in Held(s.procs[j]) <==> r in s.owner && s.owner[r] == j;
    }
  }

  lemma LocksFreed(s: State, i: nat, p: Proc, q: Path)
    requires LocksOk(s) && i < |s.procs| && InRange(p) && q in Held(s.procs[i]) && Held(p) == Held(s.procs[i]) - {q}
    ensures LocksOk(Goto(s, i, p).(owner := s.owner - {q}))
  {
    hide Held;
    var t := Goto(s, i, p).(owner := s.owner - {q});
    forall j, r | 0 <= j < |t.procs|
      ensures r in Held(t.procs[j]) <==> r in t.owner && t.owner[r] == j
    {
      assert r in Held(s.procs[j]) <==> r in s.owner && s.owner[r] == j;
    }
  }

  lemma HeldNext(op: Op, n: nat)
    requires n < |Locks(op)|
    ensures Held(Locking(op, n + 1)) == Held(Locking(op, n)) + {Locks(op)[n]}
    ensures Locks(op)[n] !in Held(Locking(op, n))
    ensures Held(Locking(op, |Locks(op)|)) == set q | q in Locks(op)
  {
    var ls := Locks(op);
    assert ls[..n + 1] == ls[..n] + [ls[n]];
    assert ls[..|ls|] == ls;
  }

  // ----- steps that leave files and log alone

  /** Process `i` moves between states in which it is not working. */
  lemma MovesKeep(start: Files, s: State, t: State, i: nat)
    requires Inv(start, s) && LocksOk(t) && t.files == s.files && t.log == s.log && i < |s.procs| == |t.procs|
    requires forall j :: 0 <= j < |s.procs| && j != i ==> t.procs[j] == s.procs[j]
    requires !s.procs[i].Working? && !t.procs[i].Working? && Answered(t, i)
    ensures Inv(start, t)
  {
    hide Held, After, Agree, CallsFrom;
    forall j | 0 <= j < |t.procs|
      ensures OnTrack(t, After(start, t.log), j) && Answered(t, j)
    {
      assert OnTrack(s, After(start, s.log), j) && Answered(s, j);
    }
    forall q | Quiet(t, q)
      ensures Agree(t.files, After(start, t.log), q)
    {
      assert Quiet(s, q) by {
        forall j | 0 <= j < |s.procs| && s.procs[j].Working?
          ensures q !in Held(s.procs[j])
        {
          assert t.procs[j] == s.procs[j];
        }
      }
    }
  }

  lemma FinishKeeps(start: Files, s: State, i: nat)
    requires Inv(start, s) && Enabled(s, i, Finish)
    ensures Inv(start, Step(start, s, i, Finish))
  {
    hide Held, After, Agree, AgreeOn;
    var p, t, spec := s.procs[i], Step(start, s, i, Finish), After(start, s.log);
    HeldNext(p.op, 0);
    HeldAll(p, t.procs[i]);
    LocksUnchanged(s, i, t.procs[i]);
    assert OnTrack(s, spec, i);
    assert CallsFrom(p.op, p.done, s.files, p.local) == (s.files, p.local);
    forall j | 0 <= j < |t.procs|
      ensures OnTrack(t, spec, j) && Answered(t, j)
    {
      assert OnTrack(s, spec, j) && Answered(s, j);
    }
    forall q | Quiet(t, q)
      ensures Agree(t.files, spec, q)
    {
      if q in Locks(p.op) {
        AgreesAt(s.files, spec, Locks(p.op), q);
      } else {
        HeldWorking(p, q);
        assert forall j :: 0 <= j < |s.procs| && j != i ==> t.procs[j] == s.procs[j];
        assert Quiet(s, q);
      }
    }
  }

  lemma AgreesAt(f: Files, g: Files, ps: seq<Path>, q: Path)
    requires AgreeOn(f, g, ps) && q in ps
    ensures Agree(f, g, q)
  {
  }

  lemma HeldWorking(p: Proc, q: Path)
    requires p.Working?
    ensures q in Held(p) <==> q in Locks(p.op)
  {
  }

  lemma HeldAll(p: Proc, r: Proc)
    requires p.Working? && r.Unlocking? && r.op == p.op && r.left == |Locks(p.op)|
    ensures Held(r) == Held(p)
  {
    assert Locks(p.op)[..|Locks(p.op)|] == Locks(p.op);
  }

  // ----- a system call

  lemma CallKeeps(start: Files, s: State, i: nat)
    requires Inv(start, s) && Enabled(s, i, SystemCall)
    ensures Inv(start, Step(start, s, i, SystemCall))
  {
    hide Held, After, Agree, AgreeOn, Call;
    var p, t, spec := s.procs[i], Step(start, s, i, SystemCall), After(start, s.log);
    var (f, l) := Call(p.op, p.done, s.files, p.local);
    HeldSame(p, t.procs[i]);
    LocksUnchanged(s, i, t.procs[i]);
    AgreeSelf(s.files, Locks(p.op));
    CallLocal(p.op, p.done, s.files, s.files, p.local);
    assert OnTrack(s, spec, i);
    assert CallsFrom(p.op, p.done, s.files, p.local) == CallsFrom(p.op, p.done + 1, f, l);
    forall j | 0 <= j < |t.procs|
      ensures OnTrack(t, spec, j) && Answered(t, j)
    {
      assert OnTrack(s, spec, j) && Answered(s, j);
      if j != i && s.procs[j].Working? {
        Undisturbed(s, f, spec, i, j);
      }
    }
    forall q | Quiet(t, q)
      ensures Agree(t.files, spec, q)
    {
      HeldWorking(t.procs[i], q);
      HeldSame(p, t.procs[i]);
      assert forall j :: 0 <= j < |s.procs| && j != i ==> t.procs[j] == s.procs[j];
      assert Quiet(s, q);
      AgreeTrans(f, s.files, spec, q);
    }
  }

  lemma HeldSame(p: Proc, r: Proc)
    requires p.Working? && r.Working? && r.op == p.op
    ensures Held(r) == Held(p)
  {
  }

  lemma AgreeSelf(f: Files, ps: seq<Path>)
    ensures AgreeOn(f, f, ps)
  {
  }

  lemma AgreeTrans(f: Files, g: Files, h: Files, q: Path)
    requires Agree(f, g, q) && Agree(g, h, q)
    ensures Agree(f, h, q)
  {
  }

  /** A change outside its own files does not disturb a working process. */
  lemma Undisturbed(s: State, f: Files, spec: Files, i: nat, j: nat)
    requires LocksOk(s) && i < |s.procs| && j < |s.procs| && i != j && s.procs[i].Working? && s.procs[j].Working?
    requires forall p :: p !in Locks(s.procs[i].op) ==> Agree(f, s.files, p)
    requires OnTrack(s, spec, j)
    ensures var p := s.procs[j];
      var (g, l) := CallsFrom(p.op, p.done, f, p.local);
      l == CallsFrom(p.op, p.done, s.files, p.local).1 && AgreeOn(g, spec, Locks(p.op))
  {
    hide Held, CallsFrom;
    var p := s.procs[j];
    forall q | q in Locks(p.op)
      ensures Agree(f, s.files, q)
    {
      HeldWorking(p, q);
      HeldWorking(s.procs[i], q);
      if q in Locks(s.procs[i].op) {
        Exclusive(s, i, j, q);
      }
    }
    CallsLocal(p.op, p.done, f, s.files, p.local);
    var (g, l) := CallsFrom(p.op, p.done, f, p.local);
    var (h, _) := CallsFrom(p.op, p.done, s.files, p.local);
    forall q | q in Locks(p.op)
      ensures Agree(g, spec, q)
    {
      AgreeTrans(g, h, spec, q);
    }
  }

  // ----- a lock is granted

  lemma AfterNext(start: Files, log: seq<Entry>, e: Entry)
    ensures After(start, log + [e]) == Effect(e.op, After(start, log))
  {
    var l := log + [e];
    assert l[..|l| - 1] == log && l[|l| - 1] == e;
  }

  lemma SequentialNext(start: Files, log: seq<Entry>, e: Entry)
    requires Sequential(start, log) && e.answer == Answer(e.op, After(start, log))
    ensures Sequential(start, log + [e])
  {
    hide Answer, After;
    var l := log + [e];
    forall j | 0 <= j < |l|
      ensures l[j].answer == Answer(l[j].op, After(start, l[..j]))
    {
      if j < |log| {
        assert l[..j] == log[..j] && l[j] == log[j];
      } else {
        assert l[..j] == log;
      }
    }
  }

  /** Nobody works on a file that process `i` is about to hold. */
  lemma Untouched(s: State, i: nat, q: Path)
    requires LocksOk(s) && i < |s.procs| && !s.procs[i].Working? && (q !in s.owner || q in Held(s.procs[i]))
    ensures Quiet(s, q)
  {
    hide Held;
    forall j | 0 <= j < |s.procs| && s.procs[j].Working?
      ensures q !in Held(s.procs[j])
    {
      if q in Held(s.procs[j]) && q in Held(s.procs[i]) {
        Exclusive(s, i, j, q);
      }
    }
  }

  /** With all its locks, an operation runs as if on the sequential state. */
  lemma Launch(op: Op, f: Files, spec: Files)
    requires ValidOp(op) && AgreeOn(f, spec, Locks(op))
    ensures AgreeOn(CallsFrom(op, 0, f, NOTHING).0, Effect(op, spec), Locks(op))
    ensures Returned(op, CallsFrom(op, 0, f, NOTHING).1) == Answer(op, spec)
    ensures forall p :: p !in Locks(op) ==> Agree(Effect(op, spec), spec, p)
  {
    hide CallsFrom, Effect, Answer, Returned, Agree, AgreeOn;
    Alone(op, spec);
    CallsLocal(op, 0, f, spec, NOTHING);
    AgreeSelf(spec, Locks(op));
    CallsLocal(op, 0, spec, spec, NOTHING);
  }

  lemma GrantLast(start: Files, s: State, i: nat)
    requires Inv(start, s) && Enabled(s, i, Acquire) && s.procs[i].taken + 1 == |Locks(s.procs[i].op)|
    ensures Inv(start, Grant(start, s, i))
  {
    hide Held, After, Agree, AgreeOn, CallsFrom, Effect, Answer, Returned, Sequential;
    var p, spec, t := s.procs[i], After(start, s.log), Grant(start, s, i);
    var e := Entry(i, p.op, Answer(p.op, spec));
    var q0 := Locks(p.op)[p.taken];
    HeldNext(p.op, p.taken);
    HeldLast(p, t.procs[i]);
    LocksTaken(s, i, t.procs[i], q0);
    AfterNext(start, s.log, e);
    SequentialNext(start, s.log, e);
    AllQuiet(start, s, i);
    Launch(p.op, s.files, spec);
    var spec' := Effect(p.op, spec);
    forall j | 0 <= j < |t.procs|
      ensures OnTrack(t, spec', j) && Answered(t, j)
    {
      assert OnTrack(s, spec, j) && Answered(s, j);
      if j != i && s.procs[j].Working? {
        Apart(s, i, j, spec, spec');
      }
    }
    forall q | Quiet(t, q)
      ensures Agree(t.files, spec', q)
    {
      HeldWorking(t.procs[i], q);
      assert forall j :: 0 <= j < |s.procs| && j != i ==> t.procs[j] == s.procs[j];
      assert Quiet(s, q);
      AgreeSym(spec', spec, q);
      AgreeTrans(s.files, spec, spec', q);
    }
  }

  lemma AgreeSym(f: Files, g: Files, q: Path)
    requires Agree(f, g, q)
    ensures Agree(g, f, q)
  {
  }

  lemma HeldLast(p: Proc, r: Proc)
    requires p.Locking? && r.Working? && r.op == p.op && p.taken + 1 == |Locks(p.op)|
    ensures Held(r) == Held(p) + {Locks(p.op)[p.taken]}
  {
    HeldNext(p.op, p.taken);
  }

  /** When the last lock is granted, the files of the operation are as the log says. */
  lemma AllQuiet(start: Files, s: State, i: nat)
    requires Inv(start, s) && Enabled(s, i, Acquire) && s.procs[i].taken + 1 == |Locks(s.procs[i].op)|
    ensures AgreeOn(s.files, After(start, s.log), Locks(s.procs[i].op))
  {
    hide After, Agree, Locks;
    var p := s.procs[i];
    forall q | q in Locks(p.op)
      ensures Agree(s.files, After(start, s.log), q)
    {
      HeldNext(p.op, p.taken);
      Untouched(s, i, q);
    }
  }

  /** The operations of other processes are about other files. */
  lemma Apart(s: State, i: nat, j: nat, spec: Files, spec': Files)
    requires LocksOk(s) && i < |s.procs| && j < |s.procs| && i != j && s.procs[j].Working?
    requires s.procs[i].Locking? && s.procs[i].taken + 1 == |Locks(s.procs[i].op)|
    requires Locks(s.procs[i].op)[s.procs[i].taken] !in s.owner
    requires forall p :: p !in Locks(s.procs[i].op) ==> Agree(spec', spec, p)
    requires OnTrack(s, spec, j)
    ensures var p := s.procs[j];
      AgreeOn(CallsFrom(p.op, p.done, s.files, p.local).0, spec', Locks(p.op))
  {
    hide CallsFrom, Agree, Locks;
    var p := s.procs[j];
    var f := CallsFrom(p.op, p.done, s.files, p.local).0;
    forall q | q in Locks(p.op)
      ensures Agree(f, spec', q)
    {
      if q in Locks(s.procs[i].op) {
        HeldNext(s.procs[i].op, s.procs[i].taken);
        Untouched(s, i, q);
        HeldWorking(p, q);
        assert false;
      }
      AgreeSym(spec', spec, q);
      AgreeTrans(f, spec, spec', q);
    }
  }

  lemma GrantKeeps(start: Files, s: State, i: nat)
    requires Inv(start, s) && Enabled(s, i, Acquire)
    ensures Inv(start, Grant(start, s, i))
  {
    hide Inv, Held, After;
    var p, t := s.procs[i], Grant(start, s, i);
    if p.taken + 1 == |Locks(p.op)| {
      GrantLast(start, s, i);
    } else {
      InvLocks(start, s);
      HeldNext(p.op, p.taken);
      LocksTaken(s, i, t.procs[i], Locks(p.op)[p.taken]);
      MovesKeep(start, s, t, i);
    }
  }

  lemma InvLocks(start: Files, s: State)
    requires Inv(start, s)
    ensures LocksOk(s) && forall i :: 0 <= i < |s.procs| ==> Answered(s, i)
  {
  }

  lemma ReleaseKeeps(start: Files, s: State, i: nat)
    requires Inv(start, s) && Enabled(s, i, Release)
    ensures Inv(start, Step(start, s, i, Release))
  {
    hide Inv, Held, After;
    var p, t := s.procs[i], Step(start, s, i, Release);
    var q := Locks(p.op)[p.left - 1];
    InvLocks(start, s);
    HeldNext(p.op, p.left - 1);
    HeldLeft(p.op, p.left, p.result, p.ticket);
    HeldLeft(p.op, p.left - 1, p.result, p.ticket);
    assert Held(t.procs[i]) == Held(p) - {q};
    LocksFreed(s, i, t.procs[i], q);
    assert Answered(s, i);
    MovesKeep(start, s, t, i);
  }

  lemma HeldLeft(op: Op, n: nat, r: Result, ticket: nat)
    requires n <= |Locks(op)|
    ensures Held(Unlocking(op, n, r, ticket)) == Held(Locking(op, n))
  {
  }

  lemma PlainKeeps(start: Files, s: State, i: nat, a: Action)
    requires Inv(start, s) && Enabled(s, i, a) && (a.Begin? || a.Leave?)
    ensures Inv(start, Step(start, s, i, a))
  {
    hide Inv, After;
    var t := Step(start, s, i, a);
    InvLocks(start, s);
    LocksUnchanged(s, i, t.procs[i]);
    MovesKeep(start, s, t, i);
  }

  /** Every step of every process keeps the invariant. */
  lemma StepKeeps(start: Files, s: State, i: nat, a: Action)
    requires Inv(start, s) && Enabled(s, i, a)
    ensures Inv(start, Step(start, s, i, a))
  {
    hide Inv, Grant;
    match a {
      case Begin(_) => PlainKeeps(start, s, i, a);
      case Acquire => GrantKeeps(start, s, i);
      case SystemCall => CallKeeps(start, s, i);
      case Finish => FinishKeeps(start, s, i);
      case Release => ReleaseKeeps(start, s, i);
      case Leave => PlainKeeps(start, s, i, a);
    }
  }

  // ----- every run

  /** The states that some interleaving reaches. */
  ghost predicate Reaches(start: Files, s: State, steps: seq<(nat, Action)>, t: State)
    decreases |steps|
  {
    if steps == [] then s == t
    else Enabled(s, steps[0].0, steps[0].1) && Reaches(start, Step(start, s, steps[0].0, steps[0].1), steps[1..], t)
  }

  lemma {:induction false} RunKeeps(start: Files, s: State, steps: seq<(nat, Action)>, t: State)
    requires Inv(start, s) && Reaches(start, s, steps, t)
    ensures Inv(start, t)
    decreases |steps|
  {
    hide Inv, Step, Enabled;
    if steps != [] {
      StepKeeps(start, s, steps[0].0, steps[0].1);
      RunKeeps(start, Step(start, s, steps[0].0, steps[0].1), steps[1..], t);
    }
  }

  /**
   * For any number of processes and any interleaving: when nobody is working, the files are those of the
   * sequential run in the order of the log; and whoever has finished answers what that run answers.
   */
  lemma Serializable(start: Files, s: State, steps: seq<(nat, Action)>, t: State)
    requires Initial(start, s) && Reaches(start, s, steps, t)
    ensures Sequential(start, t.log)
    ensures (forall i :: 0 <= i < |t.procs| ==> !t.procs[i].Working?) ==> SameFiles(t.files, After(start, t.log))
    ensures forall i :: 0 <= i < |t.procs| && t.procs[i].Unlocking? ==>
      t.procs[i].ticket < |t.log| && t.log[t.procs[i].ticket] == Entry(i, t.procs[i].op, t.procs[i].result)
  {
    hide After, Agree, Sequential, CallsFrom, Held, Step, Enabled, Reaches, SameFiles;
    InitialInv(start, s);
    RunKeeps(start, s, steps, t);
    forall i | 0 <= i < |t.procs| && t.procs[i].Unlocking?
      ensures t.procs[i].ticket < |t.log| && t.log[t.procs[i].ticket] == Entry(i, t.procs[i].op, t.procs[i].result)
    {
      assert Answered(t, i);
    }
    if forall i :: 0 <= i < |t.procs| ==> !t.procs[i].Working? {
      assert forall q :: Quiet(t, q);
      AgreeEverywhere(t.files, After(start, t.log));
    }
  }

  ghost predicate SameFiles(f: Files, g: Files)
  {
    f.flash == g.flash && forall q :: q != FlashDevice ==> Read(f, q) == Read(g, q)
  }

  lemma AgreeEverywhere(f: Files, g: Files)
    requires forall q :: Agree(f, g, q)
    ensures SameFiles(f, g)
  {
    assert Agree(f, g, FlashDevice);
    forall q | q != FlashDevice
      ensures Read(f, q) == Read(g, q)
    {
      assert Agree(f, g, q);
    }
  }

  // ----- the settings over every run

  /** What an operation changes in the file `p`, and the changes of a log. */
  function ChangeOf(op: Op, p: Path): seq<Change>
  {
    match op
    case SetOp(q, n, v) => if q == p then [Set(n, v)] else []
    case UnsetOp(q, n) => if q == p then [Unset(n)] else []
    case _ => []
  }

  function Changes(log: seq<Entry>, p: Path): seq<Change>
  {
    if log == [] then [] else Changes(log[..|log| - 1], p) + ChangeOf(log[|log| - 1].op, p)
  }

  /** The file is not reloaded from flash, and names and values are as callers may use them. */
  ghost predicate Plain(log: seq<Entry>, p: Path)
  {
    && (forall j :: 0 <= j < |log| && log[j].op.LoadOp? ==> p != ShadowFile)
    && forall j, c :: 0 <= j < |log| && c in ChangeOf(log[j].op, p) ==> IsChange(c)
  }

  lemma {:induction false} ChangesOk(log: seq<Entry>, p: Path)
    requires Plain(log, p)
    ensures forall i :: 0 <= i < |Changes(log, p)| ==> IsChange(Changes(log, p)[i])
  {
    hide IsChange, ChangeOf;
    if log != [] {
      ChangesOk(log[..|log| - 1], p);
      var cs := ChangeOf(log[|log| - 1].op, p);
      assert forall i :: 0 <= i < |cs| ==> cs[i] in cs;
    }
  }

  /** One operation has on the file the effect of its change. */
  lemma EffectOnFile(op: Op, f: Files, p: Path)
    requires p != FlashDevice && ValidOp(op) && (op.LoadOp? ==> p != ShadowFile)
    ensures Read(Effect(op, f), p) == FileRun(Read(f, p), ChangeOf(op, p))
  {
    hide SetEffect, UnsetEffect, LoadEffect, CommitEffect;
    var c := Read(f, p);
    if ChangeOf(op, p) != [] {
      assert ChangeOf(op, p) == [ChangeOf(op, p)[0]];
      FileRunNext(c, [], ChangeOf(op, p)[0]);
      assert [] + ChangeOf(op, p) == ChangeOf(op, p);
    }
  }

  /** In the sequential run a file goes through its own changes only. */
  lemma {:induction false} AfterIsFileRun(start: Files, log: seq<Entry>, p: Path)
    requires p != FlashDevice && Plain(log, p) && forall j :: 0 <= j < |log| ==> ValidOp(log[j].op)
    ensures Read(After(start, log), p) == FileRun(Read(start, p), Changes(log, p))
  {
    hide Read, Effect, ValidOp, IsChange, ChangeOf, FileRun;
    if log == [] {
      assert FileRun(Read(start, p), []) == Read(start, p) by { NoChanges(Read(start, p)); }
    } else {
      var init, op := log[..|log| - 1], log[|log| - 1].op;
      AfterIsFileRun(start, init, p);
      EffectOnFile(op, After(start, init), p);
      var cs := ChangeOf(op, p);
      OneChange(op, p);
      if cs == [] {
        NoChanges(Read(After(start, init), p));
        assert Changes(init, p) + [] == Changes(init, p);
      } else {
        FileRunNext(Read(After(start, init), p), [], cs[0]);
        NoChanges(Read(After(start, init), p));
        assert [] + [cs[0]] == cs;
        FileRunNext(Read(start, p), Changes(init, p), cs[0]);
        assert cs == [cs[0]] && Changes(log, p) == Changes(init, p) + [cs[0]];
      }
    }
  }

  lemma NoChanges(file: Option<Text>)
    ensures FileRun(file, []) == file
  {
  }

  lemma OneChange(op: Op, p: Path)
    ensures ChangeOf(op, p) == [] || |ChangeOf(op, p)| == 1
  {
  }

  lemma {:induction false} AfterSplit(start: Files, log: seq<Entry>, k: nat)
    requires k <= |log|
    ensures After(start, log) == After(After(start, log[..k]), log[k..])
    decreases |log| - k
  {
    hide Effect;
    if k == |log| {
      assert log[..k] == log && log[k..] == [];
    } else {
      var init, rest := log[..|log| - 1], log[k..];
      AfterSplit(start, init, k);
      assert rest[..|rest| - 1] == init[k..] && init[..k] == log[..k] && rest[|rest| - 1] == log[|log| - 1];
    }
  }

  ghost predicate ValidLog(log: seq<Entry>) { forall j :: 0 <= j < |log| ==> ValidOp(log[j].op) }

  lemma {:induction false} RunLogs(start: Files, s: State, steps: seq<(nat, Action)>, t: State)
    requires ValidLog(s.log) && Reaches(start, s, steps, t)
    ensures ValidLog(t.log)
    decreases |steps|
  {
    hide Call, After, Answer, Returned;
    if steps != [] {
      RunLogs(start, Step(start, s, steps[0].0, steps[0].1), steps[1..], t);
    }
  }

  /** The map that the file stands for after the operations `k` to `j` of the log. */
  ghost function MapAfter(start: Files, log: seq<Entry>, k: nat, j: nat, p: Path): imap<Text, Text>
    requires k <= j <= |log|
  {
    Updates(FileView(Read(After(start, log[..k]), p)), Changes(log[k..j], p))
  }

  /** From any point of the log on, the file refines a map under the sets and unsets that follow. */
  lemma LogRefines(start: Files, log: seq<Entry>, k: nat, j: nat, p: Path)
    requires k <= j <= |log| && ValidLog(log) && p != FlashDevice && Plain(log[k..], p)
    requires UniqueNames(Read(After(start, log[..k]), p))
    ensures FileView(Read(After(start, log[..j]), p)) == MapAfter(start, log, k, j, p)
    ensures UniqueNames(Read(After(start, log[..j]), p))
  {
    hide FileRun, FileView, UniqueNames, Updates, Changes, IsChange, After, Read, ChangeOf, ValidOp;
    var part := log[k..j];
    AfterSplit(start, log[..j], k);
    assert log[..j][..k] == log[..k] && log[..j][k..] == part;
    assert forall i :: 0 <= i < |part| ==> part[i] == log[k..][i] && part[i] == log[k + i];
    assert Plain(part, p);
    AfterIsFileRun(After(start, log[..k]), part, p);
    ChangesOk(part, p);
    FileRunRefines(Read(After(start, log[..k]), p), Changes(part, p));
  }

  /** A finished get of `p` has returned what the map held at its own place in the log. */
  ghost predicate ReadsMap(start: Files, t: State, q: Proc, p: Path, k: nat)
  {
    q.Unlocking? && q.op.GetOp? && q.op.path == p && IsName(q.op.name) && k <= q.ticket ==>
      && q.ticket < |t.log|
      && var m := MapAfter(start, t.log, k, q.ticket, p);
         q.result == Value(if q.op.name in m then Some(m[q.op.name]) else None)
  }

  /**
   * For any number of processes and any interleaving, the file is a map: as soon as nobody works on it, it holds
   * exactly the sets and unsets of the log in lock order, and every finished get has returned what the map held
   * at the get's own place in that order. `k` is any point of the log after the last load.
   */
  lemma SettingsAreAMap(start: Files, s: State, steps: seq<(nat, Action)>, t: State, p: Path, k: nat)
    requires Initial(start, s) && Reaches(start, s, steps, t)
    requires p != FlashDevice && k <= |t.log| && Plain(t.log[k..], p)
    requires UniqueNames(Read(After(start, t.log[..k]), p))
    ensures (forall i :: 0 <= i < |t.procs| && t.procs[i].Working? ==> p !in Locks(t.procs[i].op)) ==>
      UniqueNames(Read(t.files, p)) && FileView(Read(t.files, p)) == MapAfter(start, t.log, k, |t.log|, p)
    ensures forall i :: 0 <= i < |t.procs| ==> ReadsMap(start, t, t.procs[i], p, k)
  {
    hide After, Agree, CallsFrom, Held, Step, Enabled, Reaches, MapAfter, Plain, UniqueNames, FileView, IsName,
         GetEffect, ValidOp, Read;
    InitialInv(start, s);
    RunKeeps(start, s, steps, t);
    RunLogs(start, s, steps, t);
    if forall i :: 0 <= i < |t.procs| && t.procs[i].Working? ==> p !in Locks(t.procs[i].op) {
      LogRefines(start, t.log, k, |t.log|, p);
      assert t.log[..|t.log|] == t.log;
      QuietFile(start, t, p);
    }
    forall i | 0 <= i < |t.procs|
      ensures ReadsMap(start, t, t.procs[i], p, k)
    {
      var q := t.procs[i];
      if q.Unlocking? && q.op.GetOp? && q.op.path == p && k <= q.ticket && IsName(q.op.name) {
        assert Answered(t, i);
        LogRefines(start, t.log, k, q.ticket, p);
        GetIsLookup(Read(After(start, t.log[..q.ticket]), p), q.op.name);
      }
    }
  }

  lemma QuietFile(start: Files, t: State, p: Path)
    requires Inv(start, t) && p != FlashDevice
    requires forall i :: 0 <= i < |t.procs| && t.procs[i].Working? ==> p !in Locks(t.procs[i].op)
    ensures Read(t.files, p) == Read(After(start, t.log), p)
  {
    hide Held, After, CallsFrom, AgreeOn, Sequential;
    forall i | 0 <= i < |t.procs| && t.procs[i].Working?
      ensures p !in Held(t.procs[i])
    {
      HeldWorking(t.procs[i], p);
    }
    assert Quiet(t, p);
  }

  // ----- the copy in flash over every run

  /** Only a commit changes the flash. */
  lemma {:induction false} FlashKept(f: Files, log: seq<Entry>)
    requires forall i :: 0 <= i < |log| ==> !log[i].op.CommitOp?
    ensures After(f, log).flash == f.flash
  {
    hide SetEffect, UnsetEffect, LoadEffect;
    if log != [] {
      FlashKept(f, log[..|log| - 1]);
    }
  }

  /** In a log, a load behind a successful commit puts back the file that was committed. */
  lemma LoadPutsBack(start: Files, log: seq<Entry>, k: nat, j: nat)
    requires Sequential(start, log) && k < j < |log| && log[k].op.CommitOp? && log[k].answer == Code(Success)
    requires log[j].op.LoadOp? && forall i :: k < i < j ==> !log[i].op.CommitOp?
    ensures Read(After(start, log[..k]), ShadowFile).Some? && log[j].answer == Code(Success)
    ensures Read(After(start, log[..j + 1]), ShadowFile) == Read(After(start, log[..k]), ShadowFile)
  {
    hide After, CommitEffect, LoadEffect;
    var f, g := After(start, log[..k]), After(start, log[..j]);
    EffectNext(start, log, k);
    EffectNext(start, log, j);
    AfterSplit(start, log[..j], k + 1);
    assert log[..j][..k + 1] == log[..k + 1];
    FlashKept(After(start, log[..k + 1]), log[..j][k + 1..]);
    CommitThenLoad(Read(f, ShadowFile), f.flash, log[k].op.writable, Read(g, ShadowFile), log[j].op.memory);
  }

  lemma EffectNext(start: Files, log: seq<Entry>, k: nat)
    requires k < |log|
    ensures After(start, log[..k + 1]) == Effect(log[k].op, After(start, log[..k]))
  {
    hide Effect;
    assert log[..k + 1] == log[..k] + [log[k]];
    AfterNext(start, log[..k], log[k]);
  }

  /**
   * For any number of processes and any interleaving: when a process commits the settings with success, the first load
   * of them behind it, by any process, reports success and restores exactly the file that the commit found.
   */
  lemma CommittedIsRestored(start: Files, s: State, steps: seq<(nat, Action)>, t: State, k: nat)
    requires Initial(start, s) && Reaches(start, s, steps, t)
    requires k + 1 < |t.log| && t.log[k].op.CommitOp? && t.log[k].answer == Code(Success)
    requires t.log[|t.log| - 1].op.LoadOp? && forall i :: k < i < |t.log| ==> !t.log[i].op.CommitOp?
    ensures Read(After(start, t.log[..k]), ShadowFile).Some?
    ensures forall i :: 0 <= i < |t.procs| && t.procs[i].Unlocking? && t.procs[i].ticket == |t.log| - 1 ==>
      t.procs[i].result == Code(Success)
    ensures (forall i :: 0 <= i < |t.procs| && t.procs[i].Working? ==> ShadowFile !in Locks(t.procs[i].op)) ==>
      Read(t.files, ShadowFile) == Read(After(start, t.log[..k]), ShadowFile)
  {
    hide After, Agree, Sequential, CallsFrom, Held, Step, Enabled, Reaches, SameFiles, Read;
    InitialInv(start, s);
    RunKeeps(start, s, steps, t);
    Serializable(start, s, steps, t);
    LoadPutsBack(start, t.log, k, |t.log| - 1);
    assert t.log[..|t.log| - 1 + 1] == t.log;
    if forall i :: 0 <= i < |t.procs| && t.procs[i].Working? ==> ShadowFile !in Locks(t.procs[i].op) {
      QuietFile(start, t, ShadowFile);
    }
  }

  // ----- no deadlock

  /** The calls a process still has to make before it is idle again, locks included. */
  function Remaining(p: Proc): nat
    requires InRange(p)
  {
    match p
    case Idle => 0
    case Locking(op, n) => |Locks(op)| - n + Calls(op) + |Locks(op)| + 2
    case Working(op, k, _, _) => Calls(op) - k + |Locks(op)| + 2
    case Unlocking(op, n, _, _) => n + 1
  }

  /** No operation runs forever: every step but a new beginning shortens what is left. */
  lemma StepsShorten(start: Files, s: State, i: nat, a: Action)
    requires LocksOk(s) && Enabled(s, i, a) && !a.Begin?
    ensures var t := Step(start, s, i, a);
      && InRange(t.procs[i]) && Remaining(t.procs[i]) < Remaining(s.procs[i])
      && forall j :: 0 <= j < |s.procs| && j != i ==> t.procs[j] == s.procs[j]
  {
    hide Call, After, Answer, Returned;
  }

  /** A process that holds the flash has all its locks. */
  lemma FlashIsLast(p: Proc)
    requires InRange(p) && p.Locking?
    ensures FlashDevice !in Held(p)
    ensures Held(p) != {} ==> p.taken == 1 && Locks(p.op)[1] == FlashDevice
  {
    var ls := Locks(p.op);
    assert p.taken == 0 ==> ls[..0] == [];
    assert p.taken == 1 ==> ls[..1] == [ls[0]];
  }

  /** Someone who holds a lock can always go on, or waits only for the flash, whose holder can go on. */
  lemma HolderMoves(s: State, i: nat) returns (j: nat, a: Action)
    requires LocksOk(s) && i < |s.procs| && Held(s.procs[i]) != {}
    ensures Enabled(s, j, a) && !a.Begin?
  {
    var p := s.procs[i];
    if p.Locking? {
      FlashIsLast(p);
      if FlashDevice !in s.owner {
        j, a := i, Acquire;
      } else {
        j := s.owner[FlashDevice];
        assert FlashDevice in Held(s.procs[j]);
        if s.procs[j].Locking? {
          FlashIsLast(s.procs[j]);
          assert false;
        }
        a := GoesOn(s, j);
      }
    } else {
      j := i;
      a := GoesOn(s, j);
    }
  }

  /**
   * No deadlock: in every reachable state with an operation under way, some process can take a step of its operation.
   */
  lemma NoDeadlock(start: Files, s: State, steps: seq<(nat, Action)>, t: State, i: nat) returns (j: nat, a: Action)
    requires Initial(start, s) && Reaches(start, s, steps, t) && i < |t.procs| && !t.procs[i].Idle?
    ensures Enabled(t, j, a) && !a.Begin?
  {
    hide Inv, Held, Reaches;
    InitialInv(start, s);
    RunKeeps(start, s, steps, t);
    InvLocks(start, t);
    var p := t.procs[i];
    if Held(p) != {} {
      j, a := HolderMoves(t, i);
    } else if p.Locking? {
      var q := Locks(p.op)[p.taken];
      if q in t.owner {
        assert q in Held(t.procs[t.owner[q]]);
        j, a := HolderMoves(t, t.owner[q]);
      } else {
        j, a := i, Acquire;
      }
    } else {
      j := i;
      a := GoesOn(t, i);
    }
  }

  /** Only taking a lock can block. */
  lemma GoesOn(t: State, i: nat) returns (a: Action)
    requires LocksOk(t) && i < |t.procs| && (t.procs[i].Working? || t.procs[i].Unlocking?)
    ensures Enabled(t, i, a) && !a.Begin?
  {
    var p := t.procs[i];
    a := if p.Working? then (if p.done < Calls(p.op) then SystemCall else Finish)
      else if p.left > 0 then Release else Leave;
  }
}
