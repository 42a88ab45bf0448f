/** What the calls other than writing do to the abstract state. */
module Calls {
  import opened Bytes
  import opened Collections
  import opened Volumes
  import opened AbstractFs
  import opened Refinement
  import opened Growth
  import opened Sessions
  import opened Reachability

  ghost function Sought(v: Volume, f: nat, offset: uint32): Volume
    requires f < |v.fds|
  {
    v.(fds := v.fds[f := v.fds[f].(offset := offset)])
  }

  /** Moving a descriptor's offset moves its handle and nothing else. */
  lemma SeekAbs(v: Volume, chains: Chains, lost: set<nat>, f: nat, offset: uint32)
    requires Inv(v, chains, lost) && f < MAX_DESCRIPTORS && v.fds[f].inUse
    requires offset <= DISK_BLOCKS * BLOCK_SIZE
    ensures Inv(Sought(v, f, offset), chains, lost)
    ensures var a := Abs(v, chains);
            Abs(Sought(v, f, offset), chains)
            == a.(handles := a.handles[f := Opened(NameAt(v.dir, v.fds[f].dirIndex), offset)])
  {
    var v' := Sought(v, f, offset);
    FilesSame(v, chains, v', chains);
    assert Handles(v') == Handles(v)[f := Opened(NameAt(v.dir, v.fds[f].dirIndex), offset)];
  }

  /** The descriptor table through the abstraction. */
  lemma HandleFile(v: Volume, chains: Chains, lost: set<nat>, f: int)
    requires Inv(v, chains, lost)
    ensures IsOpen(Handles(v), f) <==> 0 <= f < MAX_DESCRIPTORS && v.fds[f].inUse
    ensures IsOpen(Handles(v), f) ==>
              var d := v.fds[f].dirIndex;
              d < MAX_FILES && v.dir[d].inUse && InData(chains[d]) && |chains| == MAX_FILES &&
              v.dir[d].filesize <= |chains[d]| * BLOCK_SIZE && v.fds[f].offset <= DISK_BLOCKS * BLOCK_SIZE &&
              Handles(v)[f] == Opened(NameAt(v.dir, d), v.fds[f].offset) &&
              NameAt(v.dir, d) in Files(v, chains) &&
              Files(v, chains)[NameAt(v.dir, d)] == File(View(v.blocks, chains[d], v.dir[d].filesize), |chains[d]|)
  {
    if IsOpen(Handles(v), f) {
      FileOf(v, chains, v.fds[f].dirIndex);
    }
  }

  // ---------------------------------------------------------------- cutting a file

  /** The table after freeing everything reachable behind position m of a chain. */
  lemma FreedTable(fat: seq<uint32>, fat': seq<uint32>, first: uint32, c: seq<nat>, m: nat)
    requires |fat| == |fat'| == DISK_BLOCKS && InData(c) && IsChain(fat, first, c) && m <= |c|
    requires var start := if m < |c| then c[m] else FAT_EOF;
             forall x :: 0 <= x < |fat| ==> fat'[x] == if Reaches(fat, start, x) then FAT_FREE else fat[x]
    ensures fat' == Cleared(fat, c[m..])
  {
    forall x | 0 <= x < |fat| ensures fat'[x] == Cleared(fat, c[m..])[x] {
      ReachesRest(fat, first, c, m, x);
    }
  }

  lemma UncutTable(fat: seq<uint32>, first: uint32, c: seq<nat>)
    requires |fat| == DISK_BLOCKS && InData(c) && IsChain(fat, first, c)
    ensures CutTable(fat, c, |c|) == fat
  {
    if c != [] {
      assert fat[c[|c| - 1]] == Link(c, |c| - 1);
    }
  }

  /** Cutting a chain takes blocks away, so it cannot leave the saved part of the table. */
  lemma CutLow(fat: seq<uint32>, dir: seq<DirEntry>, chains: Chains, d: nat, m: nat)
    requires |fat| == DISK_BLOCKS && |dir| == |chains| && d < |chains| && m <= |chains[d]|
    requires ChainsInv(fat, dir, chains)
    ensures Low(chains) ==> Low(chains[d := chains[d][..m]])
  {
    OwnedCut(chains, d, m);
  }

  ghost function Kept(c: seq<nat>, len: nat): nat {
    Min(|c|, len / BLOCK_SIZE + 1)
  }

  /** The volume after slot d was cut to `len` bytes through descriptor f. */
  ghost function Truncated(v: Volume, chains: Chains, d: nat, f: nat, len: uint32, blocks': seq<Block>): Volume
    requires Shape(v, chains) && d < MAX_FILES && f < MAX_DESCRIPTORS && InData(chains[d])
  {
    Volume(CutTable(v.fat, chains[d], Kept(chains[d], len)), v.dir[d := v.dir[d].(filesize := len)],
           v.fds[f := v.fds[f].(offset := Min(v.fds[f].offset, len))], blocks')
  }

  lemma TruncateInv(v: Volume, chains: Chains, lost: set<nat>, d: nat, f: nat, len: uint32, blocks': seq<Block>)
    requires Inv(v, chains, lost) && d < MAX_FILES && v.dir[d].inUse && len <= v.dir[d].filesize
    requires f < MAX_DESCRIPTORS && v.fds[f].inUse && |blocks'| == DISK_BLOCKS
    ensures var v', m := Truncated(v, chains, d, f, len, blocks'), Kept(chains[d], len);
            Inv(v', chains[d := chains[d][..m]], lost) &&
            |FreeBlocks(v'.fat)| == |FreeBlocks(v.fat)| + |chains[d]| - m
  {
    var v', m := Truncated(v, chains, d, f, len, blocks'), Kept(chains[d], len);
    CutChains(v.fat, v.dir, chains, d, m, v'.dir);
    CutAccounted(v.fat, v.dir, chains, lost, d, m);
    NamesFrame(v.dir, v'.dir, v.fds);
  }

  lemma TruncateFiles(v: Volume, chains: Chains, v': Volume, chains': Chains, lost: set<nat>, d: nat, f: nat, len: uint32, blocks': seq<Block>)
    requires Inv(v, chains, lost) && d < MAX_FILES && v.dir[d].inUse && len <= v.dir[d].filesize
    requires f < MAX_DESCRIPTORS && |blocks'| == DISK_BLOCKS && SameOutside(v.blocks, blocks', [])
    requires v' == Truncated(v, chains, d, f, len, blocks') && Inv(v', chains', lost)
    requires chains' == chains[d := chains[d][..Kept(chains[d], len)]]
    ensures var name := NameAt(v.dir, d);
            Files(v', chains') == Files(v, chains)[name :=
              File(View(v.blocks, chains[d], v.dir[d].filesize)[..len], Kept(chains[d], len))]
  {
    forall i | 0 <= i < MAX_FILES && v.dir[i].inUse && i != d
      ensures FileAt(v', chains', i) == FileAt(v, chains, i)
    {
      SameView(v.blocks, blocks', chains[i], chains'[i], v.dir[i].filesize);
    }
    FilesWith(v, chains, v', chains', d);
    SameView(v.blocks, blocks', chains'[d], chains'[d], len);
    ViewPrefix(v.blocks, chains[d], chains'[d], len, v.dir[d].filesize);
  }

  lemma InvChains(v: Volume, chains: Chains, lost: set<nat>)
    requires Inv(v, chains, lost)
    ensures Shape(v, chains) && ChainsInv(v.fat, v.dir, chains)
  {
  }

  lemma TruncateAbs(v: Volume, chains: Chains, lost: set<nat>, f: int, length: int, blocks': seq<Block>)
    requires Inv(v, chains, lost) && 0 <= f < MAX_DESCRIPTORS && v.fds[f].inUse && 0 <= length
    requires |blocks'| == DISK_BLOCKS && SameOutside(v.blocks, blocks', [])
    requires var d := v.fds[f].dirIndex; length % 0x1_0000_0000 <= v.dir[d].filesize
    ensures var d, len := v.fds[f].dirIndex, length % 0x1_0000_0000;
            var v', chains' := Truncated(v, chains, d, f, len, blocks'), chains[d := chains[d][..Kept(chains[d], len)]];
            Inv(v', chains', lost) && (Low(chains) ==> Low(chains')) &&
            |FreeBlocks(v'.fat)| + |chains'[d]| == |FreeBlocks(v.fat)| + |chains[d]| &&
            (Abs(v', chains'), Outcome(0, [])) == TruncateStep(Abs(v, chains), f, length)
  {
    hide Inv;
    HandleFile(v, chains, lost, f);
    InvReadable(v, chains, lost);
    var d, len := v.fds[f].dirIndex, length % 0x1_0000_0000;
    var v', chains' := Truncated(v, chains, d, f, len, blocks'), chains[d := chains[d][..Kept(chains[d], len)]];
    TruncateInv(v, chains, lost, d, f, len, blocks');
    TruncateFiles(v, chains, v', chains', lost, d, f, len, blocks');
    assert ChainsInv(v.fat, v.dir, chains) by {
      InvChains(v, chains, lost);
    }
    CutLow(v.fat, v.dir, chains, d, Kept(chains[d], len));
    InvReadable(v', chains', lost);
    assert Handles(v') == Handles(v)[f := Opened(NameAt(v.dir, d), Min(v.fds[f].offset, len))] by {
      forall h | 0 <= h < MAX_DESCRIPTORS && v.fds[h].inUse
        ensures NameAt(v'.dir, v.fds[h].dirIndex) == NameAt(v.dir, v.fds[h].dirIndex)
      {
      }
    }
  }

  // ---------------------------------------------------------------- deleting a file

  ghost predicate Unopened(fds: seq<FileDescriptor>, d: nat) {
    forall h :: 0 <= h < |fds| ==> !(fds[h].inUse && fds[h].dirIndex == d)
  }

  /** The volume after the file in slot d was deleted. */
  ghost function Deleted(v: Volume, chains: Chains, d: nat, blocks': seq<Block>): Volume
    requires Shape(v, chains) && d < MAX_FILES && InData(chains[d])
  {
    Volume(CutTable(v.fat, chains[d], 0), v.dir[d := EmptyEntry], v.fds, blocks')
  }

  lemma DeleteInv(v: Volume, chains: Chains, lost: set<nat>, d: nat, blocks': seq<Block>)
    requires Inv(v, chains, lost) && d < MAX_FILES && v.dir[d].inUse && Unopened(v.fds, d)
    requires |blocks'| == DISK_BLOCKS
    ensures var v' := Deleted(v, chains, d, blocks');
            Inv(v', chains[d := []], lost) && |FreeBlocks(v'.fat)| == |FreeBlocks(v.fat)| + |chains[d]|
  {
    var v' := Deleted(v, chains, d, blocks');
    assert chains[d][..0] == [];
    CutChains(v.fat, v.dir, chains, d, 0, v'.dir);
    CutAccounted(v.fat, v.dir, chains, lost, d, 0);
    assert forall i :: 0 <= i < MAX_FILES && v'.dir[i].inUse ==> NameAt(v'.dir, i) == NameAt(v.dir, i);
  }

  lemma DeleteAbs(v: Volume, chains: Chains, lost: set<nat>, d: nat, blocks': seq<Block>)
    requires Inv(v, chains, lost) && d < MAX_FILES && v.dir[d].inUse && Unopened(v.fds, d)
    requires |blocks'| == DISK_BLOCKS && SameOutside(v.blocks, blocks', [])
    ensures var v', name := Deleted(v, chains, d, blocks'), NameAt(v.dir, d);
            Inv(v', chains[d := []], lost) && (Low(chains) ==> Low(chains[d := []])) &&
            name in Files(v, chains) && |FreeBlocks(v'.fat)| == |FreeBlocks(v.fat)| + |chains[d]| &&
            Abs(v', chains[d := []]) == State(Files(v, chains) - {name}, Handles(v),
                                              |FreeBlocks(v.fat)| + Files(v, chains)[name].blocks)
  {
    var v', chains' := Deleted(v, chains, d, blocks'), chains[d := []];
    DeleteInv(v, chains, lost, d, blocks');
    CutLow(v.fat, v.dir, chains, d, 0);
    assert chains[d][..0] == [];
    FileOf(v, chains, d);
    forall i | 0 <= i < MAX_FILES && v.dir[i].inUse && i != d
      ensures FileAt(v', chains', i) == FileAt(v, chains, i)
    {
      SameView(v.blocks, blocks', chains[i], chains'[i], v.dir[i].filesize);
    }
    FilesWithout(v, chains, v', chains', d);
    assert Handles(v') == Handles(v);
  }

  /** A name is open exactly when a descriptor refers to its slot. */
  lemma OpenNames(v: Volume, chains: Chains, lost: set<nat>, d: nat)
    requires Inv(v, chains, lost) && d < MAX_FILES && v.dir[d].inUse
    ensures Unopened(v.fds, d) <==>
            !exists h :: 0 <= h < MAX_DESCRIPTORS && Handles(v)[h].Opened? && Handles(v)[h].name == NameAt(v.dir, d)
  {
    if h :| 0 <= h < MAX_DESCRIPTORS && v.fds[h].inUse && v.fds[h].dirIndex == d {
      assert Handles(v)[h].name == NameAt(v.dir, d);
    }
  }

  // ---------------------------------------------------------------- names and descriptors

  function PaddedName(name: Name): NameBuffer
    requires |name| < NAME_LENGTH
  {
    name + Zeros(NAME_LENGTH - |name|)
  }

  lemma ShortName(buf: NameBuffer)
    requires StoredName(buf)
    ensures |CString(buf)| < NAME_LENGTH
  {
    hide CString;
    var stored := CString(buf);
    assert buf[..|stored|] == stored;
    assert forall j :: 0 <= j < |stored| ==> buf[j] in stored;
  }

  /** The directory search compares stored buffers with the caller's string. */
  lemma StoredMatches(v: Volume, chains: Chains, lost: set<nat>, i: nat, name: Name)
    requires Inv(v, chains, lost) && i < MAX_FILES && v.dir[i].inUse
    ensures StrncmpEqual(v.dir[i].filename, name + [0], NAME_LENGTH) <==> NameAt(v.dir, i) == name
  {
    hide CString, StrncmpEqual, ChainsInv, Accounted;
    var buf := v.dir[i].filename;
    ShortName(buf);
    StrncmpDecidesEquality(CString(buf), name, NAME_LENGTH - |CString(buf)|);
  }

  lemma NameKnown(v: Volume, chains: Chains, lost: set<nat>, name: seq<byte>)
    requires Inv(v, chains, lost)
    ensures name in Files(v, chains) <==>
            exists i :: 0 <= i < MAX_FILES && v.dir[i].inUse && NameAt(v.dir, i) == name
  {
    if name in Files(v, chains) {
      var i := SlotOf(v, chains, name);
    }
    if i :| 0 <= i < MAX_FILES && v.dir[i].inUse && NameAt(v.dir, i) == name {
      FileOf(v, chains, i);
    }
  }

  ghost function Created(v: Volume, d: nat, name: Name): Volume
    requires d < |v.dir| && |name| < NAME_LENGTH
  {
    v.(dir := v.dir[d := DirEntry(PaddedName(name), 0, FAT_EOF, true)])
  }

  lemma CreateInv(v: Volume, chains: Chains, lost: set<nat>, d: nat, name: Name)
    requires Inv(v, chains, lost) && d < MAX_FILES && !v.dir[d].inUse && |name| < NAME_LENGTH
    requires forall i :: 0 <= i < MAX_FILES && v.dir[i].inUse ==> NameAt(v.dir, i) != name
    ensures Inv(Created(v, d, name), chains, lost) && NameAt(Created(v, d, name).dir, d) == name
  {
    CStringOfPadded(name, NAME_LENGTH - |name|);
    var v' := Created(v, d, name);
    assert forall i :: 0 <= i < MAX_FILES && i != d ==> NameAt(v'.dir, i) == NameAt(v.dir, i);
  }

  lemma CreateAbs(v: Volume, chains: Chains, lost: set<nat>, d: nat, name: Name)
    requires Inv(v, chains, lost) && d < MAX_FILES && !v.dir[d].inUse && |name| < NAME_LENGTH
    requires forall i :: 0 <= i < MAX_FILES && v.dir[i].inUse ==> NameAt(v.dir, i) != name
    ensures var v' := Created(v, d, name);
            Inv(v', chains, lost) && NameAt(v'.dir, d) == name &&
            (Abs(v', chains), Outcome(0, [])) == CreateStep(Abs(v, chains), name)
  {
    var v' := Created(v, d, name);
    CreateInv(v, chains, lost, d, name);
    NameKnown(v, chains, lost, name);
    DirectoryFull(v, chains);
    FilesWith(v, chains, v', chains, d);
    assert View(v'.blocks, chains[d], 0) == [];
    assert Handles(v') == Handles(v);
  }

  /** With no free slot, or the name taken, creation fails. */
  lemma CreateFails(v: Volume, chains: Chains, lost: set<nat>, name: Name)
    requires Inv(v, chains, lost)
    requires |name| >= NAME_LENGTH || (forall i :: 0 <= i < MAX_FILES ==> v.dir[i].inUse) ||
             (exists i :: 0 <= i < MAX_FILES && v.dir[i].inUse && NameAt(v.dir, i) == name)
    ensures CreateStep(Abs(v, chains), name) == (Abs(v, chains), Failed)
  {
    NameKnown(v, chains, lost, name);
    DirectoryFull(v, chains);
  }

  lemma {:induction false} FirstClosedIs(handles: seq<Handle>, from: nat, h: nat)
    requires from <= h <= |handles| && (h < |handles| ==> handles[h].Closed?)
    requires forall j :: from <= j < h ==> handles[j].Opened?
    ensures FirstClosed(handles, from) == h
    decreases h - from
  {
    if from < h {
      FirstClosedIs(handles, from + 1, h);
    }
  }

  ghost function OpenedAt(v: Volume, h: nat, d: uint32): Volume
    requires h < |v.fds|
  {
    v.(fds := v.fds[h := FileDescriptor(true, d, 0)])
  }

  lemma OpenAbs(v: Volume, chains: Chains, lost: set<nat>, h: nat, d: uint32, name: Name)
    requires Inv(v, chains, lost) && d < MAX_FILES && v.dir[d].inUse && NameAt(v.dir, d) == name
    requires h < MAX_DESCRIPTORS && !v.fds[h].inUse && forall j :: 0 <= j < h ==> v.fds[j].inUse
    ensures var v' := OpenedAt(v, h, d);
            Inv(v', chains, lost) && (Abs(v', chains), Outcome(h, [])) == OpenStep(Abs(v, chains), name)
  {
    var v' := OpenedAt(v, h, d);
    FilesSame(v, chains, v', chains);
    NameKnown(v, chains, lost, name);
    FirstClosedIs(Handles(v), 0, h);
    assert Handles(v') == Handles(v)[h := Opened(name, 0)];
  }

  lemma OpenFails(v: Volume, chains: Chains, lost: set<nat>, name: Name)
    requires Inv(v, chains, lost)
    requires (forall j :: 0 <= j < MAX_DESCRIPTORS ==> v.fds[j].inUse) ||
             !(exists i :: 0 <= i < MAX_FILES && v.dir[i].inUse && NameAt(v.dir, i) == name)
    ensures OpenStep(Abs(v, chains), name) == (Abs(v, chains), Failed)
  {
    NameKnown(v, chains, lost, name);
    if forall j :: 0 <= j < MAX_DESCRIPTORS ==> v.fds[j].inUse {
      FirstClosedIs(Handles(v), 0, MAX_DESCRIPTORS);
    }
  }

  ghost function ClosedAt(v: Volume, h: nat): Volume
    requires h < |v.fds|
  {
    v.(fds := v.fds[h := v.fds[h].(inUse := false)])
  }

  lemma CloseAbs(v: Volume, chains: Chains, lost: set<nat>, h: int)
    requires Inv(v, chains, lost) && 0 <= h < MAX_DESCRIPTORS && v.fds[h].inUse
    ensures var v' := ClosedAt(v, h);
            Inv(v', chains, lost) && (Abs(v', chains), Outcome(0, [])) == CloseStep(Abs(v, chains), h)
  {
    var v' := ClosedAt(v, h);
    FilesSame(v, chains, v', chains);
    assert Handles(v') == Handles(v)[h := Closed];
  }

  // ---------------------------------------------------------------- staying in the saved part

  lemma {:induction false} BlocksBelow(v: Volume, chains: Chains, n: nat)
    requires Readable(v, chains) && n <= MAX_FILES
    requires forall i :: 0 <= i < MAX_FILES && !v.dir[i].inUse ==> chains[i] == []
    ensures BlocksInUse(FilesBelow(v, chains, n)) == TotalLength(chains[..n])
  {
    if n > 0 {
      BlocksBelow(v, chains, n - 1);
      assert chains[..n][..n - 1] == chains[..n - 1];
      if v.dir[n - 1].inUse {
        if NameAt(v.dir, n - 1) in FilesBelow(v, chains, n - 1) {
          var i := SlotBelow(v, chains, n - 1, NameAt(v.dir, n - 1));
          assert false;
        }
        BlocksWith(FilesBelow(v, chains, n - 1), NameAt(v.dir, n - 1), FileAt(v, chains, n - 1));
      }
    }
  }

  /** The blocks that the chains own are those that the files account for. */
  lemma OwnedBlocks(v: Volume, chains: Chains, lost: set<nat>)
    requires Inv(v, chains, lost)
    ensures Readable(v, chains) && |Owned(chains)| == BlocksInUse(Files(v, chains))
  {
    InvChains(v, chains, lost);
    BlocksBelow(v, chains, MAX_FILES);
    assert chains[..MAX_FILES] == chains;
    OwnedCount(chains);
  }

  /** Low chains use at most the blocks of the saved part; every other free block is spare. */
  lemma SpareBlocks(v: Volume, chains: Chains, lost: set<nat>) returns (spare: nat)
    requires Inv(v, chains, lost) && Low(chains)
    requires Readable(v, chains) && Abs(v, chains).handles == AllClosed()
    ensures Savable(Abs(v, chains).files)
    ensures Abs(v, chains) == Roomier(Reopened(Abs(v, chains).files), spare)
  {
    hide FilesBelow, ChainsInv, Accounted;
    OwnedBlocks(v, chains, lost);
    LowCount(v, chains, lost);
    BlockConservation(v, chains, lost);
    SubsetSize(lost, Range(SAVED_ENTRIES, DISK_BLOCKS));
    spare := |FreeBlocks(v.fat)| + |Owned(chains)| - SAVED_BLOCKS;
  }

  lemma LowCount(v: Volume, chains: Chains, lost: set<nat>)
    requires Inv(v, chains, lost) && Low(chains)
    ensures |Owned(chains)| == TotalLength(chains) <= SAVED_BLOCKS
    ensures lost <= Range(SAVED_ENTRIES, DISK_BLOCKS)
  {
    OwnedCount(chains);
    OwnedInData(v.fat, v.dir, chains);
    SubsetSize(Owned(chains), Range(DATA_START, SAVED_ENTRIES));
  }

  lemma ManyBlocksAreNotLow(v: Volume, chains: Chains, lost: set<nat>)
    requires Inv(v, chains, lost) && Readable(v, chains) && BlocksInUse(Files(v, chains)) > SAVED_BLOCKS
    ensures !Low(chains)
  {
    OwnedBlocks(v, chains, lost);
    if Low(chains) {
      LowCount(v, chains, lost);
      assert false;
    }
  }
}
