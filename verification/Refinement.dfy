/** The abstraction from a volume and its chains to the map of files. */
module Refinement {
  import opened Bytes
  import opened Volumes
  import opened AbstractFs

  /** What `Abs` reads of the invariant. */
  ghost predicate Readable(v: Volume, chains: Chains) {
    Shape(v, chains) &&
    (forall i :: 0 <= i < |chains| ==> InData(chains[i])) &&
    SizesInv(v.dir, chains) && NamesInv(v.dir) && DescriptorsInv(v.fds, v.dir)
  }

  lemma InvReadable(v: Volume, chains: Chains, lost: set<nat>)
    requires Inv(v, chains, lost)
    ensures Readable(v, chains)
  {
  }

  ghost function FileAt(v: Volume, chains: Chains, i: nat): File
    requires Readable(v, chains) && i < MAX_FILES && v.dir[i].inUse
  {
    File(View(v.blocks, chains[i], v.dir[i].filesize), |chains[i]|)
  }

  ghost function FilesBelow(v: Volume, chains: Chains, n: nat): map<seq<byte>, File>
    requires Readable(v, chains) && n <= MAX_FILES
  {
    if n == 0 then map[]
    else
      var m := FilesBelow(v, chains, n - 1);
      if v.dir[n - 1].inUse then m[NameAt(v.dir, n - 1) := FileAt(v, chains, n - 1)] else m
  }

  ghost function Files(v: Volume, chains: Chains): map<seq<byte>, File>
    requires Readable(v, chains)
  {
    FilesBelow(v, chains, MAX_FILES)
  }

  lemma {:induction false} FilesBelowOf(v: Volume, chains: Chains, n: nat, i: nat)
    requires Readable(v, chains) && i < n <= MAX_FILES && v.dir[i].inUse
    ensures NameAt(v.dir, i) in FilesBelow(v, chains, n)
    ensures FilesBelow(v, chains, n)[NameAt(v.dir, i)] == FileAt(v, chains, i)
  {
    if i < n - 1 {
      FilesBelowOf(v, chains, n - 1, i);
    }
  }

  lemma {:induction false} SlotBelow(v: Volume, chains: Chains, n: nat, x: seq<byte>) returns (i: nat)
    requires Readable(v, chains) && n <= MAX_FILES && x in FilesBelow(v, chains, n)
    ensures i < n && v.dir[i].inUse && NameAt(v.dir, i) == x
  {
    if v.dir[n - 1].inUse && NameAt(v.dir, n - 1) == x {
      i := n - 1;
    } else {
      i := SlotBelow(v, chains, n - 1, x);
    }
  }

  /** The file in a used slot is found under its name. */
  lemma FileOf(v: Volume, chains: Chains, i: nat)
    requires Readable(v, chains) && i < MAX_FILES && v.dir[i].inUse
    ensures NameAt(v.dir, i) in Files(v, chains)
    ensures Files(v, chains)[NameAt(v.dir, i)] == FileAt(v, chains, i)
  {
    FilesBelowOf(v, chains, MAX_FILES, i);
  }

  lemma SlotOf(v: Volume, chains: Chains, x: seq<byte>) returns (i: nat)
    requires Readable(v, chains) && x in Files(v, chains)
    ensures i < MAX_FILES && v.dir[i].inUse && NameAt(v.dir, i) == x
    ensures Files(v, chains)[x] == FileAt(v, chains, i)
  {
    i := SlotBelow(v, chains, MAX_FILES, x);
    FileOf(v, chains, i);
  }

  function HandleAt(fds: seq<FileDescriptor>, dir: seq<DirEntry>, h: nat): Handle
    requires h < |fds| && (fds[h].inUse ==> fds[h].dirIndex < |dir|)
  {
    if fds[h].inUse then Opened(NameAt(dir, fds[h].dirIndex), fds[h].offset) else Closed
  }

  ghost function Handles(v: Volume): (hs: seq<Handle>)
    requires DescriptorsInv(v.fds, v.dir)
    ensures |hs| == |v.fds|
    ensures forall h :: 0 <= h < |hs| ==> hs[h] == HandleAt(v.fds, v.dir, h)
  {
    seq(|v.fds|, h requires 0 <= h < |v.fds| => HandleAt(v.fds, v.dir, h))
  }

  lemma AbsBounded(v: Volume, chains: Chains, free: nat)
    requires Readable(v, chains) && |v.fds| == MAX_DESCRIPTORS
    ensures Bounded(State(Files(v, chains), Handles(v), free))
  {
    var a := State(Files(v, chains), Handles(v), free);
    forall n | n in a.files ensures |a.files[n].content| <= a.files[n].blocks * BLOCK_SIZE {
      var i := SlotOf(v, chains, n);
    }
    forall h | 0 <= h < |a.handles| && a.handles[h].Opened? ensures a.handles[h].name in a.files {
      FileOf(v, chains, v.fds[h].dirIndex);
    }
  }

  /** The abstract state: files by name, handles, and the number of free blocks. */
  ghost function Abs(v: Volume, chains: Chains): (a: State)
    requires Readable(v, chains)
    ensures Bounded(a)
  {
    AbsBounded(v, chains, |FreeBlocks(v.fat)|);
    State(Files(v, chains), Handles(v), |FreeBlocks(v.fat)|)
  }

  /** Two volumes agree on every slot but d. */
  ghost predicate SameElsewhere(v: Volume, chains: Chains, v': Volume, chains': Chains, d: nat)
    requires Readable(v, chains) && Readable(v', chains')
  {
    forall i :: 0 <= i < MAX_FILES && i != d ==>
      v.dir[i].inUse == v'.dir[i].inUse &&
      (v.dir[i].inUse ==>
        NameAt(v.dir, i) == NameAt(v'.dir, i) && FileAt(v, chains, i) == FileAt(v', chains', i))
  }

  lemma FilesWith(v: Volume, chains: Chains, v': Volume, chains': Chains, d: nat)
    requires Readable(v, chains) && Readable(v', chains') && d < MAX_FILES
    requires SameElsewhere(v, chains, v', chains', d) && v'.dir[d].inUse
    requires v.dir[d].inUse ==> NameAt(v.dir, d) == NameAt(v'.dir, d)
    ensures Files(v', chains') == Files(v, chains)[NameAt(v'.dir, d) := FileAt(v', chains', d)]
  {
    var m, m' := Files(v, chains), Files(v', chains');
    var n := NameAt(v'.dir, d);
    forall x | x in m' ensures (x in m || x == n) && m'[x] == if x == n then FileAt(v', chains', d) else m[x] {
      var i := SlotOf(v', chains', x);
      if x == n {
        FileOf(v', chains', d);
      } else {
        FileOf(v, chains, i);
      }
    }
    forall x | x in m || x == n ensures x in m' {
      if x == n {
        FileOf(v', chains', d);
      } else {
        var i := SlotOf(v, chains, x);
        FileOf(v', chains', i);
      }
    }
  }

  lemma FilesWithout(v: Volume, chains: Chains, v': Volume, chains': Chains, d: nat)
    requires Readable(v, chains) && Readable(v', chains') && d < MAX_FILES
    requires SameElsewhere(v, chains, v', chains', d) && v.dir[d].inUse && !v'.dir[d].inUse
    ensures Files(v', chains') == Files(v, chains) - {NameAt(v.dir, d)}
  {
    var m, m' := Files(v, chains), Files(v', chains');
    var n := NameAt(v.dir, d);
    forall x | x in m' ensures x in m && x != n && m'[x] == m[x] {
      var i := SlotOf(v', chains', x);
      FileOf(v, chains, i);
    }
    forall x | x in m && x != n ensures x in m' {
      var i := SlotOf(v, chains, x);
      FileOf(v', chains', i);
    }
  }

  /** Volumes that agree on every slot have the same files. */
  lemma FilesSame(v: Volume, chains: Chains, v': Volume, chains': Chains)
    requires Readable(v, chains) && Readable(v', chains')
    requires SameElsewhere(v, chains, v', chains', MAX_FILES)
    ensures Files(v', chains') == Files(v, chains)
  {
    var m, m' := Files(v, chains), Files(v', chains');
    forall x | x in m' ensures x in m && m'[x] == m[x] {
      var i := SlotOf(v', chains', x);
      FileOf(v, chains, i);
    }
    forall x | x in m ensures x in m' {
      var i := SlotOf(v, chains, x);
      FileOf(v', chains', i);
    }
  }

  // ---------------------------------------------------------------- a full directory

  function CountInUse(dir: seq<DirEntry>, n: nat): (c: nat)
    requires n <= |dir|
    ensures c <= n
    ensures c == n <==> forall i :: 0 <= i < n ==> dir[i].inUse
  {
    if n == 0 then 0 else CountInUse(dir, n - 1) + (if dir[n - 1].inUse then 1 else 0)
  }

  lemma {:induction false} FilesBelowCount(v: Volume, chains: Chains, n: nat)
    requires Readable(v, chains) && n <= MAX_FILES
    ensures |FilesBelow(v, chains, n)| == CountInUse(v.dir, n)
  {
    if n > 0 {
      FilesBelowCount(v, chains, n - 1);
      if v.dir[n - 1].inUse && NameAt(v.dir, n - 1) in FilesBelow(v, chains, n - 1) {
        var i := SlotBelow(v, chains, n - 1, NameAt(v.dir, n - 1));
        assert false;
      }
    }
  }

  /** There are as many files as used slots, so the map is full exactly when the directory is. */
  lemma DirectoryFull(v: Volume, chains: Chains)
    requires Readable(v, chains)
    ensures |Files(v, chains)| <= MAX_FILES
    ensures |Files(v, chains)| == MAX_FILES <==> forall i :: 0 <= i < MAX_FILES ==> v.dir[i].inUse
  {
    FilesBelowCount(v, chains, MAX_FILES);
  }
}
