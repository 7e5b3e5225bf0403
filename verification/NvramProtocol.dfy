/**
 * The locking wrappers of nvram.c: any number of processes, any interleaving of their system calls.
 * Each operation acts as if it ran alone at the moment its last lock was granted.
 */
module NvramProtocol {
  import opened Bits
  import opened CanonicalCode
  import opened Crc
  import opened NvramStore
  import opened NvramFlash

  /** What can be locked: the shadow file, the flash, and other files of settings. */
  datatype Path = ShadowFile | FlashDevice | TextFile(id: nat)

  datatype Op =
    | GetOp(path: Path, name: Text)
    | SetOp(path: Path, name: Text, value: Text)
    | UnsetOp(path: Path, name: Text)
    | LoadOp(memory: nat -> byte)
    | CommitOp(writable: bool)

  datatype Files = Files(text: map<Path, Text>, flash: Option<Flash>)

  datatype Result = Value(value: Option<Text>) | Code(status: Status)

  /** What a process has read so far. */
  datatype Local = Local(content: Option<Text>, device: Option<Flash>)

  const NOTHING: Local := Local(None, None)

  predicate ValidOp(op: Op)
  {
    (op.GetOp? || op.SetOp? || op.UnsetOp?) ==> op.path != FlashDevice
  }

  /** The locks of an operation, in the order in which it takes them. */
  function Locks(op: Op): (r: seq<Path>)
    ensures |r| > 0
  {
    if op.LoadOp? || op.CommitOp? then [ShadowFile, FlashDevice] else [op.path]
  }

  function Read(f: Files, p: Path): Option<Text>
  {
    if p in f.text then Some(f.text[p]) else None
  }

  function Write(f: Files, p: Path, t: Option<Text>): Files
  {
    f.(text := if t.Some? then f.text[p := t.value] else f.text - {p})
  }

  // ----- one operation alone

  function Effect(op: Op, f: Files): Files
  {
    match op
    case GetOp(p, n) => f
    case SetOp(p, n, v) => Write(f, p, SetEffect(Read(f, p), n, v))
    case UnsetOp(p, n) => Write(f, p, UnsetEffect(Read(f, p), n))
    case LoadOp(m) => Write(f, ShadowFile, LoadEffect(f.flash, Read(f, ShadowFile), m).1)
    case CommitOp(ok) => f.(flash := CommitEffect(Read(f, ShadowFile), f.flash, ok).1)
  }

  function Answer(op: Op, f: Files): Result
  {
    match op
    case GetOp(p, n) => Value(GetEffect(Read(f, p), n))
    case SetOp(_, _, _) => Code(Success)
    case UnsetOp(_, _) => Code(Success)
    case LoadOp(m) => Code(LoadEffect(f.flash, Read(f, ShadowFile), m).0)
    case CommitOp(ok) => Code(CommitEffect(Read(f, ShadowFile), f.flash, ok).0)
  }

  // ----- its single system calls

  function Calls(op: Op): nat
  {
    match op
    case GetOp(_, _) => 1
    case SetOp(_, _, _) => 3
    case UnsetOp(_, _) => 3
    case LoadOp(_) => 4
    case CommitOp(_) => 3
  }

  /** Read a whole file; truncate it on opening; write it. */
  function Call(op: Op, k: nat, f: Files, l: Local): (Files, Local)
  {
    match op
    case GetOp(p, n) => (f, l.(content := Read(f, p)))
    case SetOp(p, n, v) =>
      if k == 0 then (f, l.(content := Read(f, p)))
      else if k == 1 then (Write(f, p, Some([])), l)
      else (Write(f, p, SetEffect(l.content, n, v)), l)
    case UnsetOp(p, n) =>
      if k == 0 then (f, l.(content := Read(f, p)))
      else if GetEffect(l.content, n) == None then (f, l)
      else if k == 1 then (Write(f, p, Some([])), l)
      else (Write(f, p, UnsetEffect(l.content, n)), l)
    case LoadOp(m) =>
      if k == 0 then (f, l.(device := f.flash))
      else if k == 1 then
        var both := l.device.Some? && f.flash.Some?;
        (f, if both then l.(device := Some(l.device.value.(area := f.flash.value.area))) else l)
      else
        var e := LoadEffect(l.device, None, m);
        if e.0 != Success then (f, l)
        else if k == 2 then (Write(f, ShadowFile, Some([])), l)
        else (Write(f, ShadowFile, e.1), l)
    case CommitOp(ok) =>
      if k == 0 then (f, l.(content := Read(f, ShadowFile)))
      else
        var e := CommitEffect(l.content, f.flash, ok);
        if e.0 != Success then (f, l)
        else if k == 1 then
          (f.(flash := Some(Flash(e.1.value.header, if f.flash.Some? then f.flash.value.area else []))), l)
        else (f.(flash := e.1), l)
  }

  /** The calls from the `k`th on. */
  function CallsFrom(op: Op, k: nat, f: Files, l: Local): (Files, Local)
    requires k <= Calls(op)
    decreases Calls(op) - k
  {
    if k == Calls(op) then (f, l)
    else
      var (f', l') := Call(op, k, f, l);
      CallsFrom(op, k + 1, f', l')
  }

  /** What is returned, from what was read. */
  function Returned(op: Op, l: Local): Result
  {
    match op
    case GetOp(_, n) => Value(GetEffect(l.content, n))
    case SetOp(_, _, _) => Code(Success)
    case UnsetOp(_, _) => Code(Success)
    case LoadOp(m) => Code(LoadEffect(l.device, None, m).0)
    case CommitOp(ok) => Code(CommitEffect(l.content, None, ok).0)
  }

  /** Undisturbed, the calls of an operation have its effect and its answer. */
  lemma Alone(op: Op, f: Files)
    requires ValidOp(op)
    ensures CallsFrom(op, 0, f, NOTHING).0 == Effect(op, f)
    ensures Returned(op, CallsFrom(op, 0, f, NOTHING).1) == Answer(op, f)
  {
    hide GetEffect, SetEffect, UnsetEffect, LoadEffect, CommitEffect;
    match op {
      case GetOp(_, _) =>
        assert CallsFrom(op, 0, f, NOTHING) == CallsFrom(op, 1, Call(op, 0, f, NOTHING).0, Call(op, 0, f, NOTHING).1);
      case SetOp(p, n, v) =>
        AloneSet(op, f);
      case UnsetOp(p, n) =>
        AloneUnset(op, f);
      case LoadOp(m) =>
        AloneLoad(op, f);
      case CommitOp(ok) =>
        AloneCommit(op, f);
    }
  }

  lemma ThreeCalls(op: Op, f: Files, l: Local)
    requires Calls(op) == 3
    ensures var (f1, l1) := Call(op, 0, f, l);
      var (f2, l2) := Call(op, 1, f1, l1);
      CallsFrom(op, 0, f, l) == Call(op, 2, f2, l2)
  {
    hide Call;
    var (f1, l1) := Call(op, 0, f, l);
    var (f2, l2) := Call(op, 1, f1, l1);
    assert CallsFrom(op, 1, f1, l1) == CallsFrom(op, 2, f2, l2);
    assert CallsFrom(op, 2, f2, l2) == Call(op, 2, f2, l2);
  }

  lemma AloneSet(op: Op, f: Files)
    requires op.SetOp? && ValidOp(op)
    ensures CallsFrom(op, 0, f, NOTHING).0 == Effect(op, f)
  {
    hide SetEffect, CallsFrom;
    ThreeCalls(op, f, NOTHING);
    Rewrite(f, op.path, [], SetEffect(Read(f, op.path), op.name, op.value));
  }

  lemma Rewrite(f: Files, p: Path, t: Text, u: Option<Text>)
    ensures Write(Write(f, p, Some(t)), p, u) == Write(f, p, u)
    ensures Write(f, p, Read(f, p)) == f
  {
    assert f.text[p := t] - {p} == f.text - {p};
    if p in f.text {
      assert f.text[p := f.text[p]] == f.text;
    } else {
      assert f.text - {p} == f.text;
    }
  }

  lemma AloneUnset(op: Op, f: Files)
    requires op.UnsetOp? && ValidOp(op)
    ensures CallsFrom(op, 0, f, NOTHING).0 == Effect(op, f)
  {
    hide CallsFrom, Decode, Lookup, Others, Encode;
    ThreeCalls(op, f, NOTHING);
    Rewrite(f, op.path, [], UnsetEffect(Read(f, op.path), op.name));
  }

  lemma AloneLoad(op: Op, f: Files)
    requires op.LoadOp?
    ensures CallsFrom(op, 0, f, NOTHING).0 == Effect(op, f)
    ensures Returned(op, CallsFrom(op, 0, f, NOTHING).1) == Answer(op, f)
  {
    hide Checksum;
    var l := Local(None, f.flash);
    var e := LoadEffect(f.flash, None, op.memory);
    assert Call(op, 0, f, NOTHING) == (f, l);
    assert Call(op, 1, f, l) == (f, l);
    Rewrite(f, ShadowFile, [], e.1);
    var (f2, l2) := Call(op, 2, f, l);
    assert CallsFrom(op, 0, f, NOTHING) == CallsFrom(op, 1, f, l);
    assert CallsFrom(op, 1, f, l) == CallsFrom(op, 2, f, l);
    assert CallsFrom(op, 2, f, l) == CallsFrom(op, 3, f2, l);
    assert CallsFrom(op, 3, f2, l) == CallsFrom(op, 4, Call(op, 3, f2, l).0, l);
  }

  lemma AloneCommit(op: Op, f: Files)
    requires op.CommitOp?
    ensures CallsFrom(op, 0, f, NOTHING).0 == Effect(op, f)
    ensures Returned(op, CallsFrom(op, 0, f, NOTHING).1) == Answer(op, f)
  {
    hide CallsFrom, Checksum;
    ThreeCalls(op, f, NOTHING);
  }

  // ----- what an operation can see and touch

  predicate Agree(f: Files, g: Files, p: Path)
  {
    if p == FlashDevice then f.flash == g.flash else Read(f, p) == Read(g, p)
  }

  ghost predicate AgreeOn(f: Files, g: Files, ps: seq<Path>)
  {
    forall p :: p in ps ==> Agree(f, g, p)
  }

  /** A call reads and writes only what the operation has locked. */
  lemma CallLocal(op: Op, k: nat, f: Files, g: Files, l: Local)
    requires ValidOp(op) && AgreeOn(f, g, Locks(op))
    ensures Call(op, k, f, l).1 == Call(op, k, g, l).1
    ensures AgreeOn(Call(op, k, f, l).0, Call(op, k, g, l).0, Locks(op))
    ensures forall p :: p !in Locks(op) ==> Agree(Call(op, k, f, l).0, f, p)
  {
    hide GetEffect, SetEffect, UnsetEffect, LoadEffect, Checksum;
    if op.LoadOp? || op.CommitOp? {
      assert ShadowFile in Locks(op) && FlashDevice in Locks(op);
      assert Agree(f, g, ShadowFile) && Agree(f, g, FlashDevice);
    } else {
      assert op.path in Locks(op);
      assert Agree(f, g, op.path);
    }
  }

  lemma {:induction false} CallsLocal(op: Op, k: nat, f: Files, g: Files, l: Local)
    requires ValidOp(op) && k <= Calls(op) && AgreeOn(f, g, Locks(op))
    ensures CallsFrom(op, k, f, l).1 == CallsFrom(op, k, g, l).1
    ensures AgreeOn(CallsFrom(op, k, f, l).0, CallsFrom(op, k, g, l).0, Locks(op))
    ensures forall p :: p !in Locks(op) ==> Agree(CallsFrom(op, k, f, l).0, f, p)
    decreases Calls(op) - k
  {
    hide Call, Agree, AgreeOn;
    if k < Calls(op) {
      CallLocal(op, k, f, g, l);
      CallsLocal(op, k + 1, Call(op, k, f, l).0, Call(op, k, g, l).0, Call(op, k, f, l).1);
      Transitive(CallsFrom(op, k, f, l).0, Call(op, k, f, l).0, f, Locks(op));
    } else {
      Reflexive(f);
    }
  }

  lemma Reflexive(f: Files)
    ensures forall p :: Agree(f, f, p)
  {
  }

  lemma Transitive(f: Files, g: Files, h: Files, ps: seq<Path>)
    requires forall p :: p !in ps ==> Agree(f, g, p)
    requires forall p :: p !in ps ==> Agree(g, h, p)
    ensures forall p :: p !in ps ==> Agree(f, h, p)
  {
  }
}
