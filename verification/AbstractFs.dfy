/** What the file system means: a map from names to byte strings, a table of
    descriptors, and a count of free blocks. `Step` gives the exact result of every
    call, short writes and early failures included. */
module AbstractFs {
  import opened Bytes
  import opened Collections
  import opened Volumes

  type Name = s: seq<byte> | 0 !in s

  /** A file is its bytes and the number of blocks set aside for it. */
  datatype File = File(content: seq<byte>, blocks: nat)

  datatype Handle = Closed | Opened(name: seq<byte>, offset: nat)

  datatype State = State(files: map<seq<byte>, File>, handles: seq<Handle>, free: nat)

  datatype Op =
    | Create(name: Name)
    | Delete(name: Name)
    | Open(name: Name)
    | Close(fildes: int)
    | Read(fildes: int, nbyte: nat)
    | Write(fildes: int, data: seq<byte>)
    | Lseek(fildes: int, offset: int)
    | Truncate(fildes: int, length: int)

  datatype Outcome = Outcome(code: int, data: seq<byte>)

  const Failed := Outcome(-1, [])

  predicate IsOpen(handles: seq<Handle>, fildes: int) {
    0 <= fildes < |handles| && handles[fildes].Opened?
  }

  /** Handles refer to existing files. */
  ghost predicate Sound(a: State) {
    |a.handles| == MAX_DESCRIPTORS &&
    forall h :: 0 <= h < |a.handles| && a.handles[h].Opened? ==> a.handles[h].name in a.files
  }

  /** The lowest closed handle at or after h, or the table size. */
  function FirstClosed(handles: seq<Handle>, h: nat): (r: nat)
    requires h <= |handles|
    ensures h <= r <= |handles|
    ensures forall j :: h <= j < r ==> handles[j].Opened?
    ensures r < |handles| ==> handles[r].Closed?
    decreases |handles| - h
  {
    if h == |handles| || handles[h].Closed? then h else FirstClosed(handles, h + 1)
  }

  /** A write through a handle at `offset`, with `free` blocks left on the disk. */
  datatype WriteEffect = WriteEffect(file: File, offset: nat, free: nat, code: nat)

  function WriteTo(f: File, offset: nat, free: nat, data: seq<byte>): (w: WriteEffect)
    requires |f.content| <= f.blocks * BLOCK_SIZE
  {
    var size := |f.content|;
    var capacity := (f.blocks + free) * BLOCK_SIZE;
    if data == [] || capacity == 0 then
      WriteEffect(f, offset, free, 0)
    else if capacity < offset then
      // the gap before the offset does not fit: it is zero-filled as far as it goes
      WriteEffect(File(f.content + Zeros(capacity - size), f.blocks + free), capacity, 0, capacity - size)
    else
      var base := f.content + Zeros(Max(offset - size, 0));
      var r := Min(|data|, capacity - offset);
      var blocks := Max(f.blocks, BlocksFor(offset + r));
      WriteEffect(File(Overlay(base, offset, data[..r]), blocks), offset + r, f.blocks + free - blocks, r)
  }

  function CreateStep(a: State, name: Name): (State, Outcome) {
    if |name| >= NAME_LENGTH || name in a.files || |a.files| >= MAX_FILES then (a, Failed)
    else (a.(files := a.files[name := File([], 0)]), Outcome(0, []))
  }

  function DeleteStep(a: State, name: Name): (State, Outcome) {
    if |name| >= NAME_LENGTH || name !in a.files || (exists h :: 0 <= h < |a.handles| && a.handles[h].Opened? && a.handles[h].name == name)
    then (a, Failed)
    else (a.(files := a.files - {name}, free := a.free + a.files[name].blocks), Outcome(0, []))
  }

  function OpenStep(a: State, name: Name): (State, Outcome) {
    var h := FirstClosed(a.handles, 0);
    if name !in a.files || h == |a.handles| then (a, Failed)
    else (a.(handles := a.handles[h := Opened(name, 0)]), Outcome(h, []))
  }

  function CloseStep(a: State, fildes: int): (State, Outcome) {
    if !IsOpen(a.handles, fildes) then (a, Failed)
    else (a.(handles := a.handles[fildes := Closed]), Outcome(0, []))
  }

  ghost function ReadStep(a: State, fildes: int, nbyte: nat): (State, Outcome)
    requires Sound(a)
  {
    if !IsOpen(a.handles, fildes) then (a, Failed)
    else
      var Opened(name, offset) := a.handles[fildes];
      var content := a.files[name].content;
      if offset >= |content| then (a, Outcome(0, []))
      else
        var n := Min(nbyte, |content| - offset);
        (a.(handles := a.handles[fildes := Opened(name, offset + n)]),
         Outcome(n, content[offset..offset + n]))
  }

  ghost function WriteStep(a: State, fildes: int, data: seq<byte>): (State, Outcome)
    requires Bounded(a)
  {
    if !IsOpen(a.handles, fildes) then (a, Failed)
    else
      var Opened(name, offset) := a.handles[fildes];
      var w := WriteTo(a.files[name], offset, a.free, data);
      (State(a.files[name := w.file], a.handles[fildes := Opened(name, w.offset)], w.free),
       Outcome(w.code, []))
  }

  ghost function LseekStep(a: State, fildes: int, offset: int): (State, Outcome)
    requires Sound(a)
  {
    if !IsOpen(a.handles, fildes) || offset < 0 || offset > |a.files[a.handles[fildes].name].content|
    then (a, Failed)
    else (a.(handles := a.handles[fildes := Opened(a.handles[fildes].name, offset)]), Outcome(0, []))
  }

  /** The length argument is used modulo 2^32. */
  ghost function TruncateStep(a: State, fildes: int, length: int): (State, Outcome)
    requires Sound(a)
  {
    if !IsOpen(a.handles, fildes) || length < 0 then (a, Failed)
    else
      var Opened(name, offset) := a.handles[fildes];
      var f := a.files[name];
      var len := length % 0x1_0000_0000;
      if len > |f.content| then (a, Failed)
      else
        var kept := Min(f.blocks, len / BLOCK_SIZE + 1);
        (State(a.files[name := File(f.content[..len], kept)],
               a.handles[fildes := Opened(name, Min(offset, len))],
               a.free + f.blocks - kept),
         Outcome(0, []))
  }

  /** A file never holds more bytes than its blocks do. */
  ghost predicate Bounded(a: State) {
    Sound(a) && forall n :: n in a.files ==> |a.files[n].content| <= a.files[n].blocks * BLOCK_SIZE
  }

  ghost function Step(a: State, op: Op): (State, Outcome)
    requires Bounded(a)
  {
    match op
    case Create(name) => CreateStep(a, name)
    case Delete(name) => DeleteStep(a, name)
    case Open(name) => OpenStep(a, name)
    case Close(fildes) => CloseStep(a, fildes)
    case Read(fildes, nbyte) => ReadStep(a, fildes, nbyte)
    case Write(fildes, data) => WriteStep(a, fildes, data)
    case Lseek(fildes, offset) => LseekStep(a, fildes, offset)
    case Truncate(fildes, length) => TruncateStep(a, fildes, length)
  }

  function AllClosed(): (handles: seq<Handle>)
    ensures |handles| == MAX_DESCRIPTORS && forall h :: 0 <= h < |handles| ==> handles[h] == Closed
  {
    seq(MAX_DESCRIPTORS, _ => Closed)
  }

  /** Just mounted after formatting, with so many blocks free. */
  function Empty(free: nat): State {
    State(map[], AllClosed(), free)
  }

  // ---------------------------------------------------------------- what every run keeps

  /** Block counts are tight: at most one block more than the bytes need. */
  ghost predicate Tight(a: State) {
    Bounded(a) &&
    forall n :: n in a.files ==> a.files[n].blocks <= |a.files[n].content| / BLOCK_SIZE + 1
  }

  lemma WriteToTight(f: File, offset: nat, free: nat, data: seq<byte>)
    requires |f.content| <= f.blocks * BLOCK_SIZE
    ensures var w := WriteTo(f, offset, free, data);
            |w.file.content| <= w.file.blocks * BLOCK_SIZE &&
            f.blocks <= w.file.blocks && w.file.blocks + w.free == f.blocks + free &&
            (f.blocks <= |f.content| / BLOCK_SIZE + 1 ==>
               w.file.blocks <= |w.file.content| / BLOCK_SIZE + 1)
  {
  }

  lemma StepBounded(a: State, op: Op)
    requires Bounded(a)
    ensures Bounded(Step(a, op).0)
    ensures Tight(a) ==> Tight(Step(a, op).0)
  {
    match op
    case Write(fildes, data) =>
      if IsOpen(a.handles, fildes) {
        WriteToTight(a.files[a.handles[fildes].name], a.handles[fildes].offset, a.free, data);
      }
    case _ =>
  }

  ghost function Run(a: State, ops: seq<Op>): (State, seq<Outcome>)
    requires Bounded(a)
    decreases |ops|
  {
    if ops == [] then (a, [])
    else
      StepBounded(a, ops[0]);
      var (mid, first) := Step(a, ops[0]);
      var (end, rest) := Run(mid, ops[1..]);
      (end, [first] + rest)
  }

  /** On every run each file's block count k satisfies ceil(size/B) <= k <= size/B + 1. */
  lemma {:induction false} RunTight(a: State, ops: seq<Op>)
    requires Tight(a)
    ensures Tight(Run(a, ops).0)
    decreases |ops|
  {
    if ops != [] {
      StepBounded(a, ops[0]);
      RunTight(Step(a, ops[0]).0, ops[1..]);
    }
  }

  /** With the offset inside the file, a write returns exactly min(n, (k+f)*B - offset). */
  lemma ShortWriteBound(f: File, offset: nat, free: nat, data: seq<byte>)
    requires offset <= |f.content| <= f.blocks * BLOCK_SIZE
    ensures var w := WriteTo(f, offset, free, data);
            w.code == Min(|data|, (f.blocks + free) * BLOCK_SIZE - offset) &&
            w.offset == offset + w.code &&
            w.file.content == Overlay(f.content, offset, data[..w.code]) &&
            (w.free > 0 ==> w.code == |data|)
  {
    assert f.content + Zeros(0) == f.content;
    assert data[..0] == [];
    assert Overlay(f.content, offset, []) == f.content;
  }

  /** Every byte a write adds is a zero of the gap or a byte of the caller's buffer. */
  lemma NoStaleBytes(f: File, offset: nat, free: nat, data: seq<byte>, j: nat)
    requires |f.content| <= f.blocks * BLOCK_SIZE
    requires j < |WriteTo(f, offset, free, data).file.content|
    ensures WriteTo(f, offset, free, data).offset <= offset + |data|
    ensures var after := WriteTo(f, offset, free, data).file.content;
            after[j] == if offset <= j < WriteTo(f, offset, free, data).offset then data[j - offset]
                        else if j < |f.content| then f.content[j] else 0
  {
  }

  // ---------------------------------------------------------------- consequences for callers

  /** The one name an operation may touch: none if its descriptor is not open. */
  ghost function Target(a: State, op: Op): Option<seq<byte>> {
    match op
    case Create(name) => Some(name)
    case Delete(name) => Some(name)
    case Open(name) => Some(name)
    case Close(fildes) => HandleName(a, fildes)
    case Read(fildes, _) => HandleName(a, fildes)
    case Write(fildes, _) => HandleName(a, fildes)
    case Lseek(fildes, _) => HandleName(a, fildes)
    case Truncate(fildes, _) => HandleName(a, fildes)
  }

  ghost function HandleName(a: State, fildes: int): Option<seq<byte>> {
    if IsOpen(a.handles, fildes) then Some(a.handles[fildes].name) else None
  }

  /** A file that no operation of a run targets keeps its bytes, its blocks and its existence. */
  lemma {:induction false} OtherFilesUnchanged(a: State, ops: seq<Op>, n: seq<byte>)
    requires Bounded(a) && n in a.files && NeverTargeted(a, ops, n)
    ensures n in Run(a, ops).0.files && Run(a, ops).0.files[n] == a.files[n]
    decreases |ops|
  {
    if ops != [] {
      StepBounded(a, ops[0]);
      var mid := Step(a, ops[0]).0;
      assert n in mid.files && mid.files[n] == a.files[n];
      OtherFilesUnchanged(mid, ops[1..], n);
    }
  }

  ghost predicate NeverTargeted(a: State, ops: seq<Op>, n: seq<byte>)
    requires Bounded(a)
    decreases |ops|
  {
    ops == [] ||
    (Target(a, ops[0]) != Some(n) &&
     (StepBounded(a, ops[0]); NeverTargeted(Step(a, ops[0]).0, ops[1..], n)))
  }

  /** What was written can be read back from where it went. */
  lemma ReadBack(a: State, fildes: int, data: seq<byte>)
    requires Bounded(a) && IsOpen(a.handles, fildes)
    requires a.handles[fildes].offset <= |a.files[a.handles[fildes].name].content|
    ensures var o := a.handles[fildes].offset;
            var (a1, w) := WriteStep(a, fildes, data);
            Bounded(a1) &&
            var (a2, s) := LseekStep(a1, fildes, o);
            Bounded(a2) && s.code == 0 &&
            ReadStep(a2, fildes, w.code).1 == Outcome(w.code, data[..w.code])
  {
    var Opened(name, o) := a.handles[fildes];
    var f := a.files[name];
    var w := WriteTo(f, o, a.free, data);
    StepBounded(a, Write(fildes, data));
    ShortWriteBound(f, o, a.free, data);
    var a1 := WriteStep(a, fildes, data).0;
    StepBounded(a1, Lseek(fildes, o));
    assert w.file.content[o..o + w.code] == data[..w.code];
  }

  /** The call puts b at position j of file n: it writes through a handle of n, and b is the byte
      of its data that belongs at j. */
  ghost predicate Puts(a: State, op: Op, n: seq<byte>, j: nat, b: byte)
    requires Bounded(a)
  {
    op.Write? && HandleName(a, op.fildes) == Some(n) &&
    var o := a.handles[op.fildes].offset;
    o <= j < o + |op.data| && j < WriteTo(a.files[n], o, a.free, op.data).offset && op.data[j - o] == b
  }

  /** The state before call k of the run. */
  ghost function StateAt(a: State, ops: seq<Op>, k: nat): (r: State)
    requires Bounded(a) && k <= |ops|
    ensures Bounded(r)
    decreases k
  {
    if k == 0 then a else (StepBounded(a, ops[0]); StateAt(Step(a, ops[0]).0, ops[1..], k - 1))
  }

  /** Call k of the run puts b at position j of file n. */
  ghost predicate PutsAt(a: State, ops: seq<Op>, k: nat, n: seq<byte>, j: nat, b: byte)
    requires Bounded(a)
  {
    k < |ops| && Puts(StateAt(a, ops, k), ops[k], n, j, b)
  }

  ghost predicate HasByte(a: State, n: seq<byte>, j: nat, b: byte) {
    n in a.files && j < |a.files[n].content| && a.files[n].content[j] == b
  }

  lemma StepOrigin(a: State, op: Op, n: seq<byte>, j: nat, b: byte)
    requires Bounded(a) && HasByte(Step(a, op).0, n, j, b)
    ensures b == 0 || HasByte(a, n, j, b) || Puts(a, op, n, j, b)
  {
    hide FirstClosed, WriteTo;
    if op.Write? && HandleName(a, op.fildes) == Some(n) {
      NoStaleBytes(a.files[n], a.handles[op.fildes].offset, a.free, op.data, j);
    }
  }

  /** Where the bytes of a file come from: after any run, the byte at a position is 0, or the one
      that was there at the start, or one that a write of the run through a handle of this very
      file put at this position. */
  lemma {:induction false} ByteOrigin(a: State, ops: seq<Op>, n: seq<byte>, j: nat, b: byte)
    requires Bounded(a) && HasByte(Run(a, ops).0, n, j, b)
    ensures b == 0 || HasByte(a, n, j, b) || exists k: nat :: PutsAt(a, ops, k, n, j, b)
    decreases |ops|
  {
    if ops != [] {
      StepBounded(a, ops[0]);
      var mid := Step(a, ops[0]).0;
      ByteOrigin(mid, ops[1..], n, j, b);
      if k: nat :| PutsAt(mid, ops[1..], k, n, j, b) {
        assert PutsAt(a, ops, k + 1, n, j, b);
      } else if HasByte(mid, n, j, b) {
        StepOrigin(a, ops[0], n, j, b);
        assert Puts(a, ops[0], n, j, b) ==> PutsAt(a, ops, 0, n, j, b);
      }
    }
  }

  /** Bytes that were cut off, or belonged to another file, never come back: from a state in which
      file n does not reach position j, every run leaves there a 0 or a byte that a write of that
      run through a handle of n put there. */
  lemma NoBytesComeBack(a: State, ops: seq<Op>, n: seq<byte>, j: nat)
    requires Bounded(a) && (n in a.files ==> |a.files[n].content| <= j)
    ensures var end := Run(a, ops).0;
            n in end.files && j < |end.files[n].content| ==>
              var b := end.files[n].content[j];
              b == 0 || exists k: nat :: PutsAt(a, ops, k, n, j, b)
  {
    var end := Run(a, ops).0;
    if n in end.files && j < |end.files[n].content| {
      ByteOrigin(a, ops, n, j, end.files[n].content[j]);
    }
  }
}
