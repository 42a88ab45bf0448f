/** Many sessions, each ended by unmounting and followed by mounting again, as seen by a caller
    who knows nothing of the allocation table but the number of blocks in use. */
module Sessions {
  import opened Bytes
  import opened Volumes
  import opened AbstractFs

  type FileMap = map<seq<byte>, File>

  /** The data blocks of the saved part of the table. */
  const SAVED_BLOCKS: int := SAVED_ENTRIES - DATA_START

  // ---------------------------------------------------------------- blocks in use

  ghost function BlocksInUse(files: FileMap): (total: nat)
    ensures forall n :: n in files ==> files[n].blocks <= total
  {
    if files == map[] then 0
    else
      var n :| n in files;
      assert files == (files - {n})[n := files[n]];
      files[n].blocks + BlocksInUse(files - {n})
  }

  /** The sum does not depend on the order of the names. */
  lemma {:induction false} BlocksWithout(files: FileMap, n: seq<byte>)
    requires n in files
    ensures BlocksInUse(files) == files[n].blocks + BlocksInUse(files - {n})
    decreases |files|
  {
    var k :| k in files && BlocksInUse(files) == files[k].blocks + BlocksInUse(files - {k});
    if k != n {
      BlocksWithout(files - {k}, n);
      BlocksWithout(files - {n}, k);
      assert files - {k} - {n} == files - {n} - {k};
    }
  }

  lemma BlocksWith(files: FileMap, n: seq<byte>, f: File)
    ensures BlocksInUse(files[n := f])
            == f.blocks + BlocksInUse(files) - (if n in files then files[n].blocks else 0)
  {
    var after := files[n := f];
    BlocksWithout(after, n);
    assert after - {n} == files - {n};
    if n in files {
      BlocksWithout(files, n);
    } else {
      assert files - {n} == files;
    }
  }

  /** Every call conserves blocks: what the files gain the disk loses. */
  lemma StepConserves(a: State, op: Op)
    requires Bounded(a)
    ensures var r := Step(a, op).0; BlocksInUse(r.files) + r.free == BlocksInUse(a.files) + a.free
  {
    hide WriteTo, FirstClosed;
    match op
    case Create(name) => BlocksWith(a.files, name, File([], 0));
    case Delete(name) =>
      if name in a.files { BlocksWithout(a.files, name); }
    case Write(fildes, data) =>
      if IsOpen(a.handles, fildes) {
        var Opened(name, offset) := a.handles[fildes];
        WriteToTight(a.files[name], offset, a.free, data);
        BlocksWith(a.files, name, WriteTo(a.files[name], offset, a.free, data).file);
      }
    case Truncate(fildes, length) =>
      if IsOpen(a.handles, fildes) {
        var name := a.handles[fildes].name;
        var r := Step(a, op).0;
        BlocksWith(a.files, name, r.files[name]);
      }
    case _ =>
  }

  /** The files never use more than `limit` blocks on the run. */
  ghost predicate AlwaysWithin(a: State, ops: seq<Op>, limit: int)
    requires Bounded(a)
    decreases |ops|
  {
    BlocksInUse(a.files) <= limit &&
    (ops == [] || (StepBounded(a, ops[0]); AlwaysWithin(Step(a, ops[0]).0, ops[1..], limit)))
  }

  // ---------------------------------------------------------------- writes that fit

  /** The call, if it writes, finds room for all its bytes. */
  ghost predicate Fits(a: State, op: Op)
    requires Bounded(a)
  {
    op.Write? && IsOpen(a.handles, op.fildes) && op.data != [] ==>
      var Opened(name, offset) := a.handles[op.fildes];
      offset + |op.data| <= (a.files[name].blocks + a.free) * BLOCK_SIZE
  }

  ghost predicate AllFit(a: State, ops: seq<Op>)
    requires Bounded(a)
    decreases |ops|
  {
    ops == [] || (Fits(a, ops[0]) && (StepBounded(a, ops[0]); AllFit(Step(a, ops[0]).0, ops[1..])))
  }

  ghost function Roomier(a: State, extra: nat): State {
    a.(free := a.free + extra)
  }

  lemma WriteRoomier(f: File, offset: nat, free: nat, data: seq<byte>, extra: nat)
    requires |f.content| <= f.blocks * BLOCK_SIZE
    requires data == [] || offset + |data| <= (f.blocks + free) * BLOCK_SIZE
    ensures var w := WriteTo(f, offset, free, data);
            WriteTo(f, offset, free + extra, data) == w.(free := w.free + extra)
  {
  }

  lemma StepRoomier(a: State, op: Op, extra: nat)
    requires Bounded(a) && Fits(a, op)
    ensures Bounded(Roomier(a, extra))
    ensures Step(Roomier(a, extra), op) == (Roomier(Step(a, op).0, extra), Step(a, op).1)
  {
    hide WriteTo, FirstClosed;
    if op.Write? && IsOpen(a.handles, op.fildes) {
      WriteRoomier(a.files[a.handles[op.fildes].name], a.handles[op.fildes].offset, a.free, op.data, extra);
    }
  }

  /** Writes that fit do not notice a roomier disk. */
  lemma {:induction false} RunRoomier(a: State, ops: seq<Op>, extra: nat)
    requires Bounded(a) && AllFit(a, ops)
    ensures Bounded(Roomier(a, extra))
    ensures Run(Roomier(a, extra), ops) == (Roomier(Run(a, ops).0, extra), Run(a, ops).1)
    ensures AlwaysWithin(Roomier(a, extra), ops, BlocksInUse(a.files) + a.free)
    decreases |ops|
  {
    hide Step, Fits;
    if ops != [] {
      StepBounded(a, ops[0]);
      StepRoomier(a, ops[0], extra);
      StepConserves(a, ops[0]);
      RunRoomier(Step(a, ops[0]).0, ops[1..], extra);
    }
  }

  /** With one block more, a write that does not fit takes that block too. */
  lemma MisfitTakesAll(a: State, op: Op)
    requires Bounded(a) && !Fits(a, op)
    ensures Bounded(Roomier(a, 1)) && Step(Roomier(a, 1), op).0.free == 0
  {
  }

  /** All writes fit exactly when one more free block would never be needed. */
  lemma {:induction false} AllFitIffWithin(a: State, ops: seq<Op>)
    requires Bounded(a)
    ensures Bounded(Roomier(a, 1))
    ensures AllFit(a, ops) <==> AlwaysWithin(Roomier(a, 1), ops, BlocksInUse(a.files) + a.free)
    decreases |ops|
  {
    hide Step, Fits;
    if ops != [] {
      StepBounded(a, ops[0]);
      StepBounded(Roomier(a, 1), ops[0]);
      StepConserves(a, ops[0]);
      StepConserves(Roomier(a, 1), ops[0]);
      if Fits(a, ops[0]) {
        StepRoomier(a, ops[0], 1);
        AllFitIffWithin(Step(a, ops[0]).0, ops[1..]);
      } else {
        MisfitTakesAll(a, ops[0]);
      }
    }
  }

  // ---------------------------------------------------------------- sessions in a row

  ghost predicate FilesBounded(files: FileMap) {
    forall n :: n in files ==> |files[n].content| <= files[n].blocks * BLOCK_SIZE
  }

  /** Files that the saved part of the table can hold. */
  ghost predicate Savable(files: FileMap) {
    FilesBounded(files) && BlocksInUse(files) <= SAVED_BLOCKS
  }

  /** A session's first state, on a disk of as many blocks as the saved part of the table has. */
  ghost function Reopened(files: FileMap): State
    requires Savable(files)
  {
    State(files, AllClosed(), SAVED_BLOCKS - BlocksInUse(files))
  }

  lemma {:induction false} RunConserves(a: State, ops: seq<Op>)
    requires Bounded(a)
    ensures var r := Run(a, ops).0; Bounded(r) && BlocksInUse(r.files) + r.free == BlocksInUse(a.files) + a.free
    decreases |ops|
  {
    hide Step;
    if ops != [] {
      StepBounded(a, ops[0]);
      StepConserves(a, ops[0]);
      RunConserves(Step(a, ops[0]).0, ops[1..]);
    }
  }

  /** The results of all sessions, and the files at the end: nothing but the files goes from one
      session to the next. */
  ghost function RunAll(files: FileMap, sessions: seq<seq<Op>>): (r: (FileMap, seq<seq<Outcome>>))
    requires Savable(files)
    ensures Savable(r.0) && |r.1| == |sessions|
    decreases |sessions|
  {
    if sessions == [] then (files, [])
    else
      RunConserves(Reopened(files), sessions[0]);
      var (end, outs) := Run(Reopened(files), sessions[0]);
      var (last, rest) := RunAll(end.files, sessions[1..]);
      (last, [outs] + rest)
  }

  /** In no session does a write need more blocks than the saved part of the table has. */
  ghost predicate AllSessionsFit(files: FileMap, sessions: seq<seq<Op>>)
    requires Savable(files)
    decreases |sessions|
  {
    sessions == [] ||
    (AllFit(Reopened(files), sessions[0]) &&
     (RunConserves(Reopened(files), sessions[0]);
      AllSessionsFit(Run(Reopened(files), sessions[0]).0.files, sessions[1..])))
  }

  // ---------------------------------------------------------------- leaving the saved part

  /** Write one block more than the saved part of the table has. */
  function BigFile(name: Name): (ops: seq<Op>)
    ensures |ops| == 3
  {
    [Create(name), Open(name), Write(0, Zeros((SAVED_BLOCKS + 1) * BLOCK_SIZE))]
  }

  lemma BigFileWrite(name: Name, free: nat)
    requires free > SAVED_BLOCKS
    ensures var a := State(map[name := File([], 0)], AllClosed()[0 := Opened(name, 0)], free);
            Bounded(a) && BlocksInUse(WriteStep(a, 0, Zeros((SAVED_BLOCKS + 1) * BLOCK_SIZE)).0.files) > SAVED_BLOCKS
  {
    var a := State(map[name := File([], 0)], AllClosed()[0 := Opened(name, 0)], free);
    var r := WriteStep(a, 0, Zeros((SAVED_BLOCKS + 1) * BLOCK_SIZE)).0;
    assert r.files[name].blocks == SAVED_BLOCKS + 1;
  }

  lemma BigFileUses(name: Name, free: nat)
    requires free > SAVED_BLOCKS && |name| < NAME_LENGTH
    ensures BlocksInUse(Run(Empty(free), BigFile(name)).0.files) > SAVED_BLOCKS
  {
    hide WriteStep, BlocksInUse;
    var ops := BigFile(name);
    var a := Step(Empty(free), ops[0]).0;
    assert a == State(map[name := File([], 0)], AllClosed(), free);
    var b := Step(a, ops[1]).0;
    assert b == State(map[name := File([], 0)], AllClosed()[0 := Opened(name, 0)], free);
    BigFileWrite(name, free);
    assert ops[1..] == [ops[1], ops[2]] && ops[1..][1..] == [ops[2]] && [ops[2]][1..] == [];
    StepBounded(b, ops[2]);
    assert Run(b, [ops[2]]).0 == Step(b, ops[2]).0;
    assert Run(a, ops[1..]).0 == Step(b, ops[2]).0;
  }
}
