/** What a caller can count on, call by call and from one call to the next. */
module FileLaws {
  import opened Bytes
  import opened Collections
  import opened Volumes
  import opened AbstractFs
  import opened Sessions

  // ---------------------------------------------------------------- every call

  /** A call that fails changes nothing. */
  lemma FailureChangesNothing(a: State, op: Op)
    requires Bounded(a) && Step(a, op).1.code == -1
    ensures Step(a, op).0 == a
  {
  }

  /** A call changes no descriptor but its own, or the one that it opens. */
  lemma OtherHandlesKept(a: State, op: Op, h: nat)
    requires Bounded(a) && h < MAX_DESCRIPTORS
    requires match op
             case Open(_) => Step(a, op).1.code != h
             case Close(f) => f != h
             case Read(f, _) => f != h
             case Write(f, _) => f != h
             case Lseek(f, _) => f != h
             case Truncate(f, _) => f != h
             case _ => true
    ensures Step(a, op).0.handles[h] == a.handles[h]
  {
    hide WriteTo;
  }

  ghost function Content(a: State, f: int): seq<byte>
    requires Sound(a) && IsOpen(a.handles, f)
  {
    a.files[a.handles[f].name].content
  }

  // ---------------------------------------------------------------- reading and seeking

  /** What a read answers, and that it moves on by as much. */
  lemma ReadLaw(a: State, f: int, n: nat)
    requires Bounded(a) && IsOpen(a.handles, f)
    ensures var o, c, (r, out) := a.handles[f].offset, Content(a, f), ReadStep(a, f, n);
            r.files == a.files && IsOpen(r.handles, f) &&
            out.code == |out.data| == Max(Min(n, |c| - o), 0) &&
            (forall j :: 0 <= j < |out.data| ==> out.data[j] == c[o + j]) &&
            r.handles[f] == Opened(a.handles[f].name, o + out.code)
  {
  }

  /** Two reads in a row return together what one read of both lengths returns. */
  lemma ReadsCompose(a: State, f: int, m: nat, n: nat)
    requires Bounded(a)
    ensures var (b, first) := ReadStep(a, f, m);
            Bounded(b) &&
            var (c, second) := ReadStep(b, f, n);
            var (d, both) := ReadStep(a, f, m + n);
            c == d && both.data == first.data + second.data &&
            (IsOpen(a.handles, f) ==> both.code == first.code + second.code)
  {
    StepBounded(a, Read(f, m));
  }

  /** A seek succeeds exactly inside the file, and the next read starts there. */
  lemma SeekThenRead(a: State, f: int, o: int, n: nat)
    requires Bounded(a) && IsOpen(a.handles, f)
    ensures var c, (b, out) := Content(a, f), LseekStep(a, f, o);
            (out.code == 0 <==> 0 <= o <= |c|) && (out.code == 0 || out.code == -1) && b.files == a.files &&
            (out.code == 0 ==> Bounded(b) && ReadStep(b, f, n).1 == Outcome(Min(n, |c| - o), c[o..o + Min(n, |c| - o)]))
  {
    StepBounded(a, Lseek(f, o));
  }

  // ---------------------------------------------------------------- writing

  lemma WriteTosCompose(f: File, o: nat, free: nat, d: seq<byte>, e: seq<byte>)
    requires |f.content| <= f.blocks * BLOCK_SIZE && d != [] && o + |d| <= (f.blocks + free) * BLOCK_SIZE
    ensures var w := WriteTo(f, o, free, d);
            |w.file.content| <= w.file.blocks * BLOCK_SIZE && w.code == |d| && w.offset == o + |d| &&
            var x := WriteTo(w.file, w.offset, w.free, e);
            var y := WriteTo(f, o, free, d + e);
            x.file == y.file && x.offset == y.offset && x.free == y.free && w.code + x.code == y.code
  {
    hide Overlay, BlocksFor;
    var base := f.content + Zeros(Max(o - |f.content|, 0));
    var room := (f.blocks + free) * BLOCK_SIZE - o - |d|;
    var r := Min(|e|, room);
    BlocksForGrows(o + |d|, o + |d| + r);
    BlocksForFits(o + |d| + r, f.blocks + free);
    assert d[..|d|] == d;
    assert (d + e)[..|d| + r] == d + e[..r];
    OverlayOverlay(base, o, d, e[..r]);
    assert Overlay(base, o, d) + Zeros(0) == Overlay(base, o, d);
    if e == [] {
      assert d + e == d;
    }
  }

  lemma BlocksForGrows(m: nat, n: nat)
    requires m <= n
    ensures BlocksFor(m) <= BlocksFor(n) && m <= BlocksFor(m) * BLOCK_SIZE
  {
  }

  lemma BlocksForFits(n: nat, blocks: nat)
    requires n <= blocks * BLOCK_SIZE
    ensures BlocksFor(n) <= blocks
  {
  }

  /** Two writes in a row do what one write of both buffers does, if the first fits. */
  lemma WritesCompose(a: State, f: int, d: seq<byte>, e: seq<byte>)
    requires Bounded(a) && IsOpen(a.handles, f) && d != [] && Fits(a, Write(f, d))
    ensures var (b, first) := WriteStep(a, f, d);
            Bounded(b) &&
            var (c, second) := WriteStep(b, f, e);
            var (g, both) := WriteStep(a, f, d + e);
            c == g && first.code == |d| && both.code == first.code + second.code
  {
    hide WriteTo;
    var name, o := a.handles[f].name, a.handles[f].offset;
    StepBounded(a, Write(f, d));
    WriteTosCompose(a.files[name], o, a.free, d, e);
  }

  /** Byte by byte, what a write that fits leaves: the gap is zero, the buffer is at the offset,
      the rest stays; and the offset moves past it. */
  lemma WriteLaw(a: State, f: int, d: seq<byte>)
    requires Bounded(a) && IsOpen(a.handles, f) && d != [] && Fits(a, Write(f, d))
    ensures var o, c, (b, out) := a.handles[f].offset, Content(a, f), WriteStep(a, f, d);
            Bounded(b) && IsOpen(b.handles, f) && out == Outcome(|d|, []) &&
            b.handles[f] == Opened(a.handles[f].name, o + |d|) &&
            |Content(b, f)| == Max(|c|, o + |d|) &&
            forall j :: 0 <= j < |Content(b, f)| ==>
              Content(b, f)[j] == if o <= j < o + |d| then d[j - o] else if j < |c| then c[j] else 0
  {
    StepBounded(a, Write(f, d));
    var file, o := a.files[a.handles[f].name], a.handles[f].offset;
    var w := WriteTo(file, o, a.free, d);
    assert d[..|d|] == d;
    forall j | 0 <= j < |w.file.content|
      ensures w.file.content[j] == if o <= j < o + |d| then d[j - o] else if j < |file.content| then file.content[j] else 0
    {
      NoStaleBytes(file, o, a.free, d, j);
    }
  }

  /** A write that does not fit takes every free block and fills it; it returns by how much it got
      on: bytes of the buffer behind the offset, or zeros if it did not get there. */
  lemma MisfitLaw(a: State, f: int, d: seq<byte>)
    requires Bounded(a) && IsOpen(a.handles, f) && !Fits(a, Write(f, d))
    ensures var file, o, (b, out) := a.files[a.handles[f].name], a.handles[f].offset, WriteStep(a, f, d);
            var room := (file.blocks + a.free) * BLOCK_SIZE;
            Bounded(b) && IsOpen(b.handles, f) && b.free == 0 &&
            (room > 0 ==> |Content(b, f)| == room && b.handles[f] == Opened(a.handles[f].name, room)) &&
            (room == 0 ==> b == a && out.code == 0) &&
            (room > 0 ==> out.code == room - if o <= room then o else |file.content|) &&
            forall j :: 0 <= j < |Content(b, f)| ==>
              Content(b, f)[j] == if o <= j then d[j - o] else if j < |file.content| then file.content[j] else 0
  {
    StepBounded(a, Write(f, d));
    var file, o := a.files[a.handles[f].name], a.handles[f].offset;
    var w := WriteTo(file, o, a.free, d);
    forall j | 0 <= j < |w.file.content|
      ensures w.file.content[j] == if o <= j then d[j - o] else if j < |file.content| then file.content[j] else 0
    {
      NoStaleBytes(file, o, a.free, d, j);
    }
  }

  // ---------------------------------------------------------------- truncating

  /** A truncation succeeds exactly for a length that the file has; it keeps that many bytes, and
      the calling descriptor is inside the file afterwards. */
  lemma TruncateLaw(a: State, f: int, length: int)
    requires Bounded(a) && IsOpen(a.handles, f)
    ensures var len, c, (b, out) := length % 0x1_0000_0000, Content(a, f), TruncateStep(a, f, length);
            (out.code == 0 <==> length >= 0 && len <= |c|) &&
            (out.code == 0 ==>
               Bounded(b) && IsOpen(b.handles, f) && Content(b, f) == c[..len] &&
               b.handles[f] == Opened(a.handles[f].name, Min(a.handles[f].offset, len)) &&
               b.handles[f].offset <= |Content(b, f)|)
  {
    StepBounded(a, Truncate(f, length));
  }

  /** After a truncation below its offset, the descriptor appends right at the cut. */
  lemma TruncateThenWrite(a: State, f: int, length: nat, d: seq<byte>)
    requires Bounded(a) && IsOpen(a.handles, f) && d != []
    requires length < 0x1_0000_0000 && length <= a.handles[f].offset && length <= |Content(a, f)|
    ensures var b := TruncateStep(a, f, length).0;
            Bounded(b) &&
            (Fits(b, Write(f, d)) ==>
               var c := WriteStep(b, f, d).0;
               Bounded(c) && IsOpen(c.handles, f) && Content(c, f) == Content(a, f)[..length] + d)
  {
    hide WriteTo, WriteStep, TruncateStep, Fits;
    TruncateLaw(a, f, length);
    var b := TruncateStep(a, f, length).0;
    if Fits(b, Write(f, d)) {
      WriteLaw(b, f, d);
      assert Content(WriteStep(b, f, d).0, f) == Content(a, f)[..length] + d;
    }
  }

  // ---------------------------------------------------------------- names

  /** A creation succeeds exactly for a legal new name while there is room for a file; the file is
      empty, a second creation fails, and deleting it brings the old state back. */
  lemma CreateLaw(a: State, name: Name)
    requires Bounded(a)
    ensures var (b, out) := CreateStep(a, name);
            (out.code == 0 <==> |name| < NAME_LENGTH && name !in a.files && |a.files| < MAX_FILES) &&
            (out.code == 0 ==>
               name in b.files && b.files[name] == File([], 0) && b.files.Keys == a.files.Keys + {name} &&
               CreateStep(b, name).1.code == -1 && DeleteStep(b, name) == (a, Outcome(0, [])))
  {
    var b := CreateStep(a, name).0;
    if CreateStep(a, name).1.code == 0 {
      assert b.files - {name} == a.files;
    }
  }

  /** A deletion succeeds exactly for a file that nobody has open; the name is gone and free to be
      created again, the blocks are back, the other files stay. */
  lemma DeleteLaw(a: State, name: Name)
    requires Bounded(a) && |a.files| <= MAX_FILES
    ensures var (b, out) := DeleteStep(a, name);
            (out.code == 0 <==> |name| < NAME_LENGTH && name in a.files &&
                                forall h :: 0 <= h < |a.handles| ==> a.handles[h] == Closed || a.handles[h].name != name) &&
            (out.code == 0 ==>
               name !in b.files && b.files.Keys == a.files.Keys - {name} && b.handles == a.handles &&
               (forall n :: n in b.files ==> b.files[n] == a.files[n]) &&
               b.free == a.free + a.files[name].blocks && CreateStep(b, name).1.code == 0 &&
               DeleteStep(b, name).1.code == -1)
  {
    var b := DeleteStep(a, name).0;
    if DeleteStep(a, name).1.code == 0 {
      assert a.files.Keys == b.files.Keys + {name};
      assert |a.files.Keys| == |b.files.Keys| + 1;
      assert |b.files| == |b.files.Keys| && |a.files| == |a.files.Keys|;
    }
  }

  /** An opening succeeds exactly for an existing name while a descriptor is closed, and takes the
      lowest; the first read starts at the beginning, and closing brings the old state back. */
  lemma OpenLaw(a: State, name: Name, n: nat)
    requires Bounded(a)
    ensures var (b, out) := OpenStep(a, name);
            (out.code >= 0 <==> name in a.files && exists h :: 0 <= h < |a.handles| && a.handles[h].Closed?) &&
            (out.code >= 0 ==>
               var f := out.code;
               f < |a.handles| && a.handles[f].Closed? && (forall h :: 0 <= h < f ==> a.handles[h].Opened?) &&
               b.files == a.files && Bounded(b) && b.handles == a.handles[f := Opened(name, 0)] &&
               ReadStep(b, f, n).1 == Outcome(Min(n, |a.files[name].content|), a.files[name].content[..Min(n, |a.files[name].content|)]) &&
               CloseStep(b, f) == (a, Outcome(0, [])))
  {
    StepBounded(a, Open(name));
    var (b, out) := OpenStep(a, name);
    if out.code >= 0 {
      assert b.handles[out.code := Closed] == a.handles;
    }
  }

  /** A closed descriptor is refused by every call until it is opened again. */
  lemma CloseLaw(a: State, f: int, op: Op)
    requires Bounded(a) && IsOpen(a.handles, f)
    requires op in {Close(f)} || (op.Read? && op.fildes == f) || (op.Write? && op.fildes == f) ||
             (op.Lseek? && op.fildes == f) || (op.Truncate? && op.fildes == f)
    ensures var (b, out) := CloseStep(a, f);
            out == Outcome(0, []) && b.files == a.files && Bounded(b) && Step(b, op) == (b, Failed)
  {
    StepBounded(a, Close(f));
  }

  // ---------------------------------------------------------------- the next session

  /** After unmounting and mounting, opening a file and reading finds the bytes that the session
      before left. */
  lemma NextSessionReads(files: FileMap, ops: seq<Op>, name: Name, n: nat)
    requires Savable(files) && name in Run(Reopened(files), ops).0.files
    ensures var c := Run(Reopened(files), ops).0.files[name].content;
            RunAll(files, [ops, [Open(name), Read(0, n)]]).1[1] == [Outcome(0, []), Outcome(Min(n, |c|), c[..Min(n, |c|)])]
  {
    hide WriteTo;
    var look := [Open(name), Read(0, n)];
    RunConserves(Reopened(files), ops);
    var after := Run(Reopened(files), ops).0.files;
    var a := Reopened(after);
    OpenLaw(a, name, n);
    var b := Step(a, Open(name)).0;
    assert Step(a, Open(name)).1 == Outcome(0, []);
    assert look[1..] == [Read(0, n)] && look[1..][1..] == [];
    StepBounded(b, Read(0, n));
    assert Run(b, look[1..]).1 == [Step(b, Read(0, n)).1];
    assert Run(a, look).1 == [Outcome(0, []), Step(b, Read(0, n)).1];
    var sessions := [ops, look];
    assert sessions[1..] == [look] && sessions[1..][1..] == [];
    assert RunAll(after, [look]).1 == [Run(a, look).1];
    assert RunAll(files, sessions).1 == [Run(Reopened(files), ops).1] + RunAll(after, sessions[1..]).1;
  }
}
