/** How a file grows: the steps that a write is made of, each of them leaving every
    other file alone, and what they add up to. */
module Growth {
  import opened Bytes
  import opened Volumes
  import opened AbstractFs
  import opened Refinement

  /** Blocks outside the metadata area and outside chain c are untouched. */
  ghost predicate SameOutside(blocks: seq<Block>, blocks': seq<Block>, c: seq<nat>)
    requires |blocks| == |blocks'| == DISK_BLOCKS
  {
    forall b :: DATA_START <= b < DISK_BLOCKS && b !in c ==> blocks'[b] == blocks[b]
  }

  /** Chains stay in the saved area unless more blocks are used than that area has. */
  ghost predicate LowOrFull(chains: Chains) {
    Low(chains) || |Owned(chains)| > SAVED_ENTRIES - DATA_START
  }

  ghost predicate GrowthStep(v0: Volume, chains0: Chains, v: Volume, chains: Chains, d: nat)
    requires Shape(v0, chains0) && Shape(v, chains) && d < MAX_FILES
  {
    v.dir[d].inUse && v0.dir[d].inUse && v.dir[d].filename == v0.dir[d].filename &&
    (forall i :: 0 <= i < MAX_FILES && i != d ==> v.dir[i] == v0.dir[i] && chains[i] == chains0[i]) &&
    chains0[d] <= chains[d] &&
    SameOutside(v0.blocks, v.blocks, chains[d]) &&
    |FreeBlocks(v.fat)| + |chains[d]| == |FreeBlocks(v0.fat)| + |chains0[d]| &&
    (LowOrFull(chains0) ==> LowOrFull(chains))
  }

  /** (v, chains) comes from (v0, chains0) by growing and writing the file in slot d. */
  ghost predicate Grown(v0: Volume, chains0: Chains, v: Volume, chains: Chains, lost: set<nat>, d: nat) {
    d < MAX_FILES && Inv(v0, chains0, lost) && Inv(v, chains, lost) && GrowthStep(v0, chains0, v, chains, d)
  }

  lemma GrownStart(v: Volume, chains: Chains, lost: set<nat>, d: nat)
    requires Inv(v, chains, lost) && d < MAX_FILES && v.dir[d].inUse
    ensures Grown(v, chains, v, chains, lost, d)
  {
  }

  /** First-fit allocation, as the scan of the table finds it. */
  ghost predicate FirstFree(fat: seq<uint32>, b: nat)
    requires |fat| == DISK_BLOCKS
  {
    DATA_START <= b < DISK_BLOCKS && fat[b] == FAT_FREE &&
    forall x :: DATA_START <= x < b ==> fat[x] != FAT_FREE
  }

  /** The directory after slot d gets block b as its new last block. */
  function WithBlock(dir: seq<DirEntry>, d: nat, c: seq<nat>, b: uint32): seq<DirEntry>
    requires d < |dir|
  {
    if c == [] then dir[d := dir[d].(firstBlock := b, filesize := 0)] else dir
  }

  lemma GrowLow(v: Volume, chains: Chains, lost: set<nat>, d: nat, b: nat)
    requires Inv(v, chains, lost) && d < MAX_FILES && FirstFree(v.fat, b) && LowOrFull(chains)
    ensures LowOrFull(chains[d := chains[d] + [b]])
  {
    OwnedExtend(chains, d, b);
    assert b !in Owned(chains);
    assert |Owned(chains) + {b}| == |Owned(chains)| + 1;
    if |Owned(chains)| < SAVED_ENTRIES - DATA_START {
      FirstFitIsLow(v, chains, lost, b);
    }
  }

  /** Names and flags of the directory are unchanged. */
  ghost predicate SameNames(dir: seq<DirEntry>, dir': seq<DirEntry>) {
    |dir| == |dir'| &&
    forall i :: 0 <= i < |dir| ==> dir'[i].filename == dir[i].filename && dir'[i].inUse == dir[i].inUse
  }

  lemma NamesFrame(dir: seq<DirEntry>, dir': seq<DirEntry>, fds: seq<FileDescriptor>)
    requires SameNames(dir, dir') && NamesInv(dir) && DescriptorsInv(fds, dir)
    ensures NamesInv(dir') && DescriptorsInv(fds, dir')
  {
    assert forall i :: 0 <= i < |dir| ==> NameAt(dir', i) == NameAt(dir, i);
  }

  lemma GrowInv(v: Volume, chains: Chains, lost: set<nat>, d: nat, b: uint32)
    requires Inv(v, chains, lost) && d < MAX_FILES && v.dir[d].inUse && FirstFree(v.fat, b)
    ensures var v' := v.(fat := Linked(v.fat, chains[d], b), dir := WithBlock(v.dir, d, chains[d], b));
            Inv(v', chains[d := chains[d] + [b]], lost) && |FreeBlocks(v'.fat)| + 1 == |FreeBlocks(v.fat)|
  {
    var dir' := WithBlock(v.dir, d, chains[d], b);
    ExtendChains(v.fat, v.dir, chains, d, b, dir');
    ExtendAccounted(v.fat, v.dir, chains, lost, d, b);
    NamesFrame(v.dir, dir', v.fds);
  }

  lemma GrowthBlock(v0: Volume, chains0: Chains, v: Volume, chains: Chains, d: nat, b: uint32,
                    v': Volume, chains': Chains)
    requires Shape(v0, chains0) && Shape(v, chains) && Shape(v', chains') && d < MAX_FILES
    requires GrowthStep(v0, chains0, v, chains, d)
    requires v'.dir == WithBlock(v.dir, d, chains[d], b) && v'.blocks == v.blocks
    requires chains' == chains[d := chains[d] + [b]]
    requires |FreeBlocks(v'.fat)| + 1 == |FreeBlocks(v.fat)| && (LowOrFull(chains) ==> LowOrFull(chains'))
    ensures GrowthStep(v0, chains0, v', chains', d)
  {
  }

  /** Allocating a block and linking it behind the last one. */
  lemma GrowBlock(v0: Volume, chains0: Chains, v: Volume, chains: Chains, lost: set<nat>, d: nat, b: uint32)
    requires Grown(v0, chains0, v, chains, lost, d) && FirstFree(v.fat, b)
    ensures Grown(v0, chains0,
              v.(fat := Linked(v.fat, chains[d], b), dir := WithBlock(v.dir, d, chains[d], b)),
              chains[d := chains[d] + [b]], lost, d)
  {
    var v' := v.(fat := Linked(v.fat, chains[d], b), dir := WithBlock(v.dir, d, chains[d], b));
    var chains' := chains[d := chains[d] + [b]];
    GrowInv(v, chains, lost, d, b);
    if LowOrFull(chains) {
      GrowLow(v, chains, lost, d, b);
    }
    GrowthBlock(v0, chains0, v, chains, d, b, v', chains');
  }

  /** Patching one block of the file. */
  lemma GrowPatch(v0: Volume, chains0: Chains, v: Volume, chains: Chains, lost: set<nat>, d: nat,
                  i: nat, off: nat, bytes: seq<byte>, size: nat)
    requires Grown(v0, chains0, v, chains, lost, d)
    requires i < |chains[d]| && off + |bytes| <= BLOCK_SIZE
    requires i * BLOCK_SIZE + off <= size <= |chains[d]| * BLOCK_SIZE
    ensures var b := chains[d][i];
            var blocks' := v.blocks[b := Patch(v.blocks[b], off, bytes)];
            Grown(v0, chains0, v.(blocks := blocks'), chains, lost, d) &&
            View(blocks', chains[d], Max(size, i * BLOCK_SIZE + off + |bytes|))
            == Overlay(View(v.blocks, chains[d], size), i * BLOCK_SIZE + off, bytes)
  {
    PatchView(v.blocks, chains[d], size, i, off, bytes);
  }

  /** Saving metadata, or anything else in front of the data area. */
  lemma GrowMetadata(v0: Volume, chains0: Chains, v: Volume, chains: Chains, lost: set<nat>, d: nat,
                     blocks': seq<Block>, size: nat)
    requires Grown(v0, chains0, v, chains, lost, d)
    requires |blocks'| == DISK_BLOCKS && SameOutside(v.blocks, blocks', [])
    requires size <= |chains[d]| * BLOCK_SIZE
    ensures Grown(v0, chains0, v.(blocks := blocks'), chains, lost, d)
    ensures View(blocks', chains[d], size) == View(v.blocks, chains[d], size)
  {
    SameView(v.blocks, blocks', chains[d], chains[d], size);
  }

  /** Changing the size of the file, within its blocks. */
  lemma GrowSize(v0: Volume, chains0: Chains, v: Volume, chains: Chains, lost: set<nat>, d: nat, size: uint32)
    requires Grown(v0, chains0, v, chains, lost, d) && size <= |chains[d]| * BLOCK_SIZE
    ensures Grown(v0, chains0, v.(dir := v.dir[d := v.dir[d].(filesize := size)]), chains, lost, d)
  {
    var dir' := v.dir[d := v.dir[d].(filesize := size)];
    NamesFrame(v.dir, dir', v.fds);
    SameHeads(v.fat, v.dir, dir', chains);
  }

  lemma SameHeads(fat: seq<uint32>, dir: seq<DirEntry>, dir': seq<DirEntry>, chains: Chains)
    requires |fat| == DISK_BLOCKS && |dir| == |chains| && SameNames(dir, dir')
    requires forall i :: 0 <= i < |dir| ==> dir'[i].firstBlock == dir[i].firstBlock
    requires ChainsInv(fat, dir, chains)
    ensures ChainsInv(fat, dir', chains)
  {
  }

  lemma InvOffset(v: Volume, chains: Chains, lost: set<nat>, f: nat, offset: uint32)
    requires Inv(v, chains, lost)
    requires f < MAX_DESCRIPTORS && v.fds[f].inUse && offset <= DISK_BLOCKS * BLOCK_SIZE
    ensures Inv(v.(fds := v.fds[f := v.fds[f].(offset := offset)]), chains, lost)
  {
  }

  lemma GrowOffset(v0: Volume, chains0: Chains, v: Volume, chains: Chains, lost: set<nat>, d: nat,
                   f: nat, offset: uint32)
    requires Grown(v0, chains0, v, chains, lost, d)
    requires f < MAX_DESCRIPTORS && v.fds[f].inUse && offset <= DISK_BLOCKS * BLOCK_SIZE
    ensures Grown(v0, chains0, v.(fds := v.fds[f := v.fds[f].(offset := offset)]), chains, lost, d)
  {
    var v' := v.(fds := v.fds[f := v.fds[f].(offset := offset)]);
    assert Inv(v', chains, lost) by {
      InvOffset(v, chains, lost, f, offset);
    }
    assert GrowthStep(v0, chains0, v', chains, d);
  }

  /** Part of a write: the bytes `done` have been laid over `content` from position o on. */
  ghost predicate Writing(v0: Volume, chains0: Chains, v: Volume, chains: Chains, lost: set<nat>, d: nat,
                          content: seq<byte>, o: nat, done: seq<byte>) {
    Grown(v0, chains0, v, chains, lost, d) && o <= |content| &&
    Max(|content|, o + |done|) <= |chains[d]| * BLOCK_SIZE &&
    View(v.blocks, chains[d], Max(|content|, o + |done|)) == Overlay(content, o, done)
  }

  lemma WritingStart(v: Volume, chains: Chains, lost: set<nat>, d: nat, size: nat, o: nat)
    requires Inv(v, chains, lost) && d < MAX_FILES && v.dir[d].inUse
    requires o <= size <= |chains[d]| * BLOCK_SIZE
    ensures Writing(v, chains, v, chains, lost, d, View(v.blocks, chains[d], size), o, [])
  {
    var content := View(v.blocks, chains[d], size);
    assert Overlay(content, o, []) == content;
  }

  lemma WritingInv(v0: Volume, chains0: Chains, v: Volume, chains: Chains, lost: set<nat>, d: nat,
                   content: seq<byte>, o: nat, done: seq<byte>)
    requires Writing(v0, chains0, v, chains, lost, d, content, o, done)
    ensures Inv(v, chains, lost) && Shape(v, chains) && forall i :: 0 <= i < MAX_FILES ==> InData(chains[i])
    ensures d < MAX_FILES && v.dir[d].inUse
  {
  }

  lemma WritingPatch(v0: Volume, chains0: Chains, v: Volume, chains: Chains, lost: set<nat>, d: nat,
                     content: seq<byte>, o: nat, done: seq<byte>, i: nat, off: nat, piece: seq<byte>)
    requires Writing(v0, chains0, v, chains, lost, d, content, o, done)
    requires i < |chains[d]| && off + |piece| <= BLOCK_SIZE && i * BLOCK_SIZE + off == o + |done|
    ensures var b := chains[d][i];
            Writing(v0, chains0, v.(blocks := v.blocks[b := Patch(v.blocks[b], off, piece)]), chains, lost, d,
                    content, o, done + piece)
  {
    hide Inv, GrowthStep, Patch, Overlay;
    InvShape(v, chains, lost);
    GrowPatch(v0, chains0, v, chains, lost, d, i, off, piece, Max(|content|, o + |done|));
    OverlayOverlay(content, o, done, piece);
  }

  lemma WritingBlock(v0: Volume, chains0: Chains, v: Volume, chains: Chains, lost: set<nat>, d: nat,
                     content: seq<byte>, o: nat, done: seq<byte>, b: uint32)
    requires Writing(v0, chains0, v, chains, lost, d, content, o, done)
    requires FirstFree(v.fat, b) && chains[d] != []
    ensures Writing(v0, chains0, v.(fat := Linked(v.fat, chains[d], b)), chains[d := chains[d] + [b]], lost, d,
                    content, o, done)
  {
    GrowBlock(v0, chains0, v, chains, lost, d, b);
    SameView(v.blocks, v.blocks, chains[d], chains[d] + [b], Max(|content|, o + |done|));
  }

  lemma GrownTrans(v0: Volume, chains0: Chains, v1: Volume, chains1: Chains, v2: Volume, chains2: Chains,
                   lost: set<nat>, d: nat)
    requires Grown(v0, chains0, v1, chains1, lost, d) && Grown(v1, chains1, v2, chains2, lost, d)
    ensures Grown(v0, chains0, v2, chains2, lost, d)
  {
    assert forall b :: b in chains1[d] ==> b in chains2[d];
  }

  lemma WritingTrans(v0: Volume, chains0: Chains, v1: Volume, chains1: Chains, v2: Volume, chains2: Chains,
                     lost: set<nat>, d: nat, content: seq<byte>, o: nat, done: seq<byte>)
    requires Grown(v0, chains0, v1, chains1, lost, d)
    requires Writing(v1, chains1, v2, chains2, lost, d, content, o, done)
    ensures Writing(v0, chains0, v2, chains2, lost, d, content, o, done)
  {
    GrownTrans(v0, chains0, v1, chains1, v2, chains2, lost, d);
  }

  lemma GrownSlot(v0: Volume, chains0: Chains, v: Volume, chains: Chains, d: nat, i: nat)
    requires Readable(v0, chains0) && Readable(v, chains) && d < MAX_FILES && i < MAX_FILES
    requires Apart(chains[i], chains[d]) && chains[i] == chains0[i] && v.dir[i] == v0.dir[i] && v.dir[i].inUse
    requires SameOutside(v0.blocks, v.blocks, chains[d])
    ensures FileAt(v0, chains0, i) == FileAt(v, chains, i)
  {
    forall p | 0 <= p < |chains[i]| ensures v.blocks[chains[i][p]] == v0.blocks[chains[i][p]] {
      assert chains[i][p] !in chains[d];
    }
    SameView(v0.blocks, v.blocks, chains0[i], chains[i], v0.dir[i].filesize);
  }

  lemma GrownElsewhere(v0: Volume, chains0: Chains, v: Volume, chains: Chains, lost: set<nat>, d: nat)
    requires Grown(v0, chains0, v, chains, lost, d)
    ensures SameElsewhere(v0, chains0, v, chains, d)
  {
    forall i | 0 <= i < MAX_FILES && i != d && v0.dir[i].inUse
      ensures FileAt(v0, chains0, i) == FileAt(v, chains, i)
    {
      SlotsApart(chains, i, d);
      GrownSlot(v0, chains0, v, chains, d, i);
    }
  }

  /** What growing amounts to: one file and one handle change, blocks move from free to the file. */
  lemma GrownAbs(v0: Volume, chains0: Chains, v: Volume, chains: Chains, lost: set<nat>, d: nat,
                 f: nat, content: seq<byte>)
    requires Grown(v0, chains0, v, chains, lost, d)
    requires content == View(v.blocks, chains[d], v.dir[d].filesize)
    requires f < MAX_DESCRIPTORS && v0.fds[f].inUse && v0.fds[f].dirIndex == d
    requires v.fds == v0.fds[f := v0.fds[f].(offset := v.fds[f].offset)]
    ensures var a0, name := Abs(v0, chains0), NameAt(v0.dir, d);
            Abs(v, chains) == State(
              a0.files[name := File(content, |chains[d]|)],
              a0.handles[f := Opened(name, v.fds[f].offset)],
              a0.free + |chains0[d]| - |chains[d]|)
  {
    GrownElsewhere(v0, chains0, v, chains, lost, d);
    FilesWith(v0, chains0, v, chains, d);
    var name := NameAt(v0.dir, d);
    assert Handles(v) == Handles(v0)[f := Opened(name, v.fds[f].offset)] by {
      forall h | 0 <= h < MAX_DESCRIPTORS
        ensures Handles(v)[h] == Handles(v0)[f := Opened(name, v.fds[f].offset)][h]
      {
        assert v.fds[h].inUse ==> NameAt(v.dir, v.fds[h].dirIndex) == NameAt(v0.dir, v.fds[h].dirIndex);
      }
    }
  }

  /** Room for the file in slot d: its own blocks and the free ones. */
  ghost function Capacity(v: Volume, chains: Chains, d: nat): nat
    requires d < |chains|
  {
    (|chains[d]| + |FreeBlocks(v.fat)|) * BLOCK_SIZE
  }

  lemma GrownCapacity(v0: Volume, chains0: Chains, v: Volume, chains: Chains, lost: set<nat>, d: nat)
    requires Grown(v0, chains0, v, chains, lost, d)
    ensures Capacity(v, chains, d) == Capacity(v0, chains0, d) && |chains0[d]| <= |chains[d]|
    ensures |chains| == |chains0| == MAX_FILES && d < MAX_FILES && InData(chains[d]) && InData(chains0[d])
    ensures Inv(v, chains, lost) && Shape(v, chains) && v.dir[d].inUse
    ensures Inv(v0, chains0, lost) && Shape(v0, chains0) && v0.dir[d].inUse
    ensures LowOrFull(chains0) ==> LowOrFull(chains)
  {
  }

  lemma WritingGrown(v0: Volume, chains0: Chains, v: Volume, chains: Chains, lost: set<nat>, d: nat,
                     content: seq<byte>, o: nat, done: seq<byte>)
    requires Writing(v0, chains0, v, chains, lost, d, content, o, done)
    ensures Grown(v0, chains0, v, chains, lost, d)
  {
  }

  /** The file in slot d had `size` bytes and has n zeros behind them now. */
  ghost predicate ZeroExtended(v0: Volume, chains0: Chains, v: Volume, chains: Chains, lost: set<nat>, d: nat,
                               size: nat, n: nat) {
    Grown(v0, chains0, v, chains, lost, d) && size <= |chains0[d]| * BLOCK_SIZE &&
    size + n <= |chains[d]| * BLOCK_SIZE &&
    View(v.blocks, chains[d], size + n) == View(v0.blocks, chains0[d], size) + Zeros(n)
  }

  lemma SizeBound(v: Volume, chains: Chains, lost: set<nat>, d: nat)
    requires Inv(v, chains, lost) && d < MAX_FILES && v.dir[d].inUse
    ensures v.dir[d].filesize <= |chains[d]| * BLOCK_SIZE
  {
  }

  lemma HandleSlot(v: Volume, chains: Chains, lost: set<nat>, f: nat)
    requires Inv(v, chains, lost) && f < MAX_DESCRIPTORS && v.fds[f].inUse
    ensures v.fds[f].dirIndex < MAX_FILES && v.dir[v.fds[f].dirIndex].inUse && Shape(v, chains)
    ensures InData(chains[v.fds[f].dirIndex])
  {
  }

  /** No call ever points past the data area. */
  lemma InvBounds(v: Volume, chains: Chains, lost: set<nat>, d: nat, f: nat)
    requires Inv(v, chains, lost) && d < MAX_FILES && v.dir[d].inUse && f < MAX_DESCRIPTORS && v.fds[f].inUse
    ensures v.dir[d].filesize <= |chains[d]| * BLOCK_SIZE && v.fds[f].offset <= DISK_BLOCKS * BLOCK_SIZE
    ensures Capacity(v, chains, d) <= DISK_BLOCKS * BLOCK_SIZE
    ensures v.fds[f].dirIndex < MAX_FILES && v.dir[v.fds[f].dirIndex].inUse
  {
    OwnedCount(chains);
    BlockConservation(v, chains, lost);
    LengthBelowTotal(chains, d);
  }

  /** Growing without touching the blocks keeps the bytes that were there. */
  lemma GrownView(v0: Volume, chains0: Chains, v: Volume, chains: Chains, lost: set<nat>, d: nat, n: nat)
    requires Grown(v0, chains0, v, chains, lost, d) && v.blocks == v0.blocks && n <= |chains0[d]| * BLOCK_SIZE
    ensures InData(chains[d]) && InData(chains0[d]) && |chains0[d]| <= |chains[d]|
    ensures View(v.blocks, chains[d], n) == View(v0.blocks, chains0[d], n)
  {
    SameView(v0.blocks, v.blocks, chains0[d], chains[d], n);
  }

  /** Zeros laid over the end of the content extend it. */
  lemma WritingZeros(v0: Volume, chains0: Chains, v: Volume, chains: Chains, lost: set<nat>, d: nat,
                     content: seq<byte>, n: nat)
    requires Writing(v0, chains0, v, chains, lost, d, content, |content|, Zeros(n))
    ensures InData(chains[d]) && |content| + n <= |chains[d]| * BLOCK_SIZE
    ensures View(v.blocks, chains[d], |content| + n) == content + Zeros(n)
  {
    assert Overlay(content, |content|, Zeros(n)) == content + Zeros(n);
  }

  /** The changes a call makes to its own directory entry and descriptor at the end. */
  lemma GrownFinish(v0: Volume, chains0: Chains, v: Volume, chains: Chains, lost: set<nat>, d: nat,
                    f: nat, size: uint32, offset: uint32, blocks': seq<Block>, v': Volume)
    requires Grown(v0, chains0, v, chains, lost, d)
    requires size <= |chains[d]| * BLOCK_SIZE && offset <= DISK_BLOCKS * BLOCK_SIZE
    requires f < MAX_DESCRIPTORS && v.fds[f].inUse
    requires |blocks'| == DISK_BLOCKS && SameOutside(v.blocks, blocks', [])
    requires v' == Volume(v.fat, v.dir[d := v.dir[d].(filesize := size)],
                          v.fds[f := v.fds[f].(offset := offset)], blocks')
    ensures Grown(v0, chains0, v', chains, lost, d)
    ensures InData(chains[d]) && View(blocks', chains[d], size) == View(v.blocks, chains[d], size)
  {
    hide Inv, GrowthStep;
    GrownCapacity(v0, chains0, v, chains, lost, d);
    var v1 := v.(blocks := blocks');
    GrowMetadata(v0, chains0, v, chains, lost, d, blocks', size);
    var v2 := v1.(dir := v.dir[d := v.dir[d].(filesize := size)]);
    GrowSize(v0, chains0, v1, chains, lost, d, size);
    GrowOffset(v0, chains0, v2, chains, lost, d, f, offset);
    assert v' == v2.(fds := v.fds[f := v.fds[f].(offset := offset)]);
  }

  /** The gap before descriptor f's offset has been zero-filled as far as the disk allows. */
  ghost predicate GapFilled(v0: Volume, chains0: Chains, v: Volume, chains: Chains, lost: set<nat>, d: nat, f: nat) {
    Grown(v0, chains0, v, chains, lost, d) && f < MAX_DESCRIPTORS &&
    var size, reach := v0.dir[d].filesize, Min(v0.fds[f].offset, Capacity(v0, chains0, d));
    v.fds == v0.fds[f := v0.fds[f].(offset := reach)] && v.dir[d].filesize == reach &&
    size <= reach <= |chains[d]| * BLOCK_SIZE &&
    |chains[d]| == Max(|chains0[d]|, BlocksFor(reach)) &&
    View(v.blocks, chains[d], reach) == View(v0.blocks, chains0[d], size) + Zeros(reach - size)
  }

  lemma GapFinish(v0: Volume, chains0: Chains, v: Volume, chains: Chains, lost: set<nat>, d: nat, f: nat,
                  n: nat, blocks': seq<Block>, v': Volume)
    requires d < |v0.dir| && ZeroExtended(v0, chains0, v, chains, lost, d, v0.dir[d].filesize, n)
    requires f < MAX_DESCRIPTORS && v0.fds[f].inUse && v0.dir[d].filesize < v0.fds[f].offset
    requires n == Min(v0.fds[f].offset, Capacity(v0, chains0, d)) - v0.dir[d].filesize
    requires |chains[d]| == Max(|chains0[d]|, BlocksFor(v0.dir[d].filesize + n))
    requires v.fds == v0.fds && |blocks'| == DISK_BLOCKS && SameOutside(v.blocks, blocks', [])
    requires v' == Volume(v.fat, v.dir[d := v.dir[d].(filesize := v0.dir[d].filesize + n)],
                          v.fds[f := v.fds[f].(offset := v0.dir[d].filesize + n)], blocks')
    ensures GapFilled(v0, chains0, v', chains, lost, d, f) && Inv(v', chains, lost)
  {
    hide Inv, GrowthStep;
    GrownCapacity(v0, chains0, v, chains, lost, d);
    InvBounds(v0, chains0, lost, d, f);
    InvShape(v0, chains0, lost);
    InvShape(v, chains, lost);
    GrownCapacity(v0, chains0, v, chains, lost, d);
    GrownFinish(v0, chains0, v, chains, lost, d, f, v0.dir[d].filesize + n, v0.dir[d].filesize + n, blocks', v');
    GrownCapacity(v0, chains0, v', chains, lost, d);
  }

  /** The call's data went in at descriptor f's offset, r bytes of it. */
  ghost predicate DataWritten(v0: Volume, chains0: Chains, v: Volume, chains: Chains, lost: set<nat>, d: nat,
                              f: nat, data: seq<byte>, r: nat) {
    Grown(v0, chains0, v, chains, lost, d) && f < MAX_DESCRIPTORS &&
    var size, o := v0.dir[d].filesize, v0.fds[f].offset;
    o <= size && r == Min(|data|, Capacity(v0, chains0, d) - o) && o + r <= DISK_BLOCKS * BLOCK_SIZE &&
    v.fds == v0.fds[f := v0.fds[f].(offset := o + r)] && v.dir[d].filesize == Max(size, o + r) &&
    |chains[d]| == Max(|chains0[d]|, BlocksFor(o + r)) && Max(size, o + r) <= |chains[d]| * BLOCK_SIZE &&
    View(v.blocks, chains[d], Max(size, o + r)) == Overlay(View(v0.blocks, chains0[d], size), o, data[..r])
  }

  lemma DataFinish(v0: Volume, chains0: Chains, v: Volume, chains: Chains, lost: set<nat>, d: nat, f: nat,
                   data: seq<byte>, r: nat, blocks': seq<Block>, v': Volume)
    requires f < MAX_DESCRIPTORS && d < MAX_FILES && Shape(v, chains) && Readable(v0, chains0) && v0.dir[d].inUse
    requires Inv(v0, chains0, lost) && v0.fds[f].inUse && v0.fds[f].offset <= v0.dir[d].filesize
    requires r <= |data| && Writing(v0, chains0, v, chains, lost, d,
                                    View(v0.blocks, chains0[d], v0.dir[d].filesize), v0.fds[f].offset, data[..r])
    requires r == Min(|data|, Capacity(v0, chains0, d) - v0.fds[f].offset)
    requires |chains[d]| == Max(|chains0[d]|, BlocksFor(v0.fds[f].offset + r))
    requires v.fds == v0.fds && v.dir[d].filesize == v0.dir[d].filesize
    requires |blocks'| == DISK_BLOCKS && SameOutside(v.blocks, blocks', [])
    requires v0.fds[f].offset + r <= DISK_BLOCKS * BLOCK_SIZE
    requires v' == Volume(v.fat, v.dir[d := v.dir[d].(filesize := Max(v0.dir[d].filesize, v0.fds[f].offset + r))],
                          v.fds[f := v.fds[f].(offset := v0.fds[f].offset + r)], blocks')
    ensures DataWritten(v0, chains0, v', chains, lost, d, f, data, r) && Inv(v', chains, lost)
  {
    hide Inv, GrowthStep;
    InvShape(v0, chains0, lost);
    InvShape(v, chains, lost);
    WritingGrown(v0, chains0, v, chains, lost, d, View(v0.blocks, chains0[d], v0.dir[d].filesize), v0.fds[f].offset, data[..r]);
    GrownCapacity(v0, chains0, v, chains, lost, d);
    var end := v0.fds[f].offset + r;
    GrownFinish(v0, chains0, v, chains, lost, d, f, Max(v0.dir[d].filesize, end), end, blocks', v');
    GrownCapacity(v0, chains0, v', chains, lost, d);
  }

  /** The file in slot d has a first block now, if it had none. */
  ghost predicate Started(v0: Volume, chains0: Chains, v: Volume, chains: Chains, lost: set<nat>, d: nat) {
    Grown(v0, chains0, v, chains, lost, d) &&
    v.fds == v0.fds && v.blocks == v0.blocks && v.dir[d].filesize == v0.dir[d].filesize &&
    |chains[d]| == Max(|chains0[d]|, 1)
  }

  /** Taking the first free block as first block of an empty file. */
  lemma StartBlock(v: Volume, chains: Chains, lost: set<nat>, d: nat, b: uint32, v': Volume, chains': Chains)
    requires Inv(v, chains, lost) && d < MAX_FILES && v.dir[d].inUse && chains[d] == []
    requires FirstFree(v.fat, b) && chains' == chains[d := [b]]
    requires v' == v.(fat := v.fat[b := FAT_EOF], dir := v.dir[d := v.dir[d].(firstBlock := b, filesize := 0)])
    ensures Started(v, chains, v', chains', lost, d) && Inv(v', chains', lost)
  {
    hide GrowthStep;
    GrownStart(v, chains, lost, d);
    GrowBlock(v, chains, v, chains, lost, d, b);
    assert chains[d] + [b] == [b];
    assert v' == v.(fat := Linked(v.fat, chains[d], b), dir := WithBlock(v.dir, d, chains[d], b));
  }

  // ---------------------------------------------------------------- a whole write

  ghost predicate WriteDone(v0: Volume, chains0: Chains, v: Volume, chains: Chains, f: nat, data: seq<byte>, code: int)
    requires Readable(v0, chains0) && Readable(v, chains)
  {
    (Abs(v, chains), Outcome(code, [])) == WriteStep(Abs(v0, chains0), f, data)
  }

  /** Growing the file in slot d amounts to the abstract write, if its bytes and blocks do. */
  lemma WriteFromEffect(v0: Volume, chains0: Chains, v: Volume, chains: Chains, lost: set<nat>, d: nat,
                        f: nat, data: seq<byte>, content: seq<byte>, code: nat)
    requires Grown(v0, chains0, v, chains, lost, d)
    requires content == View(v.blocks, chains[d], v.dir[d].filesize)
    requires f < MAX_DESCRIPTORS && v0.fds[f].inUse && v0.fds[f].dirIndex == d
    requires v.fds == v0.fds[f := v0.fds[f].(offset := v.fds[f].offset)]
    requires WriteTo(FileAt(v0, chains0, d), v0.fds[f].offset, |FreeBlocks(v0.fat)|, data)
             == WriteEffect(File(content, |chains[d]|), v.fds[f].offset,
                            |FreeBlocks(v0.fat)| + |chains0[d]| - |chains[d]|, code)
    ensures WriteDone(v0, chains0, v, chains, f, data, code)
  {
    GrownAbs(v0, chains0, v, chains, lost, d, f, content);
    FileOf(v0, chains0, d);
    assert Handles(v0)[f] == HandleAt(v0.fds, v0.dir, f);
  }

  /** Nothing to write, or nowhere to write it. */
  lemma WriteNothing(v: Volume, chains: Chains, lost: set<nat>, d: nat, f: nat, data: seq<byte>)
    requires Inv(v, chains, lost) && f < MAX_DESCRIPTORS && v.fds[f].inUse && v.fds[f].dirIndex == d
    requires data == [] || Capacity(v, chains, d) == 0
    ensures WriteDone(v, chains, v, chains, f, data, 0)
  {
    GrownStart(v, chains, lost, d);
    WriteFromEffect(v, chains, v, chains, lost, d, f, data, View(v.blocks, chains[d], v.dir[d].filesize), 0);
  }

  /** The disk fills up before the offset is reached. */
  lemma WriteInGap(v0: Volume, chains0: Chains, v1: Volume, chains1: Chains, v2: Volume, chains2: Chains,
                   lost: set<nat>, d: nat, f: nat, data: seq<byte>)
    requires Started(v0, chains0, v1, chains1, lost, d) && GapFilled(v1, chains1, v2, chains2, lost, d, f)
    requires data != [] && v0.fds[f].inUse && v0.fds[f].dirIndex == d
    requires Capacity(v0, chains0, d) < v0.fds[f].offset
    ensures WriteDone(v0, chains0, v2, chains2, f, data, v2.dir[d].filesize - v0.dir[d].filesize)
    ensures Grown(v0, chains0, v2, chains2, lost, d) && (LowOrFull(chains0) ==> LowOrFull(chains2))
  {
    hide Inv, GrowthStep;
    InvReadable(v0, chains0, lost);
    InvReadable(v2, chains2, lost);
    GrownTrans(v0, chains0, v1, chains1, v2, chains2, lost, d);
    GrownView(v0, chains0, v1, chains1, lost, d, v0.dir[d].filesize);
    GrownCapacity(v0, chains0, v1, chains1, lost, d);
    GrownCapacity(v0, chains0, v2, chains2, lost, d);
    WriteFromEffect(v0, chains0, v2, chains2, lost, d, f, data,
                    View(v2.blocks, chains2[d], v2.dir[d].filesize), v2.dir[d].filesize - v0.dir[d].filesize);
  }

  /** Everything before the offset is in place: the write can go on at or before the end. */
  ghost predicate Prepared(v0: Volume, chains0: Chains, v: Volume, chains: Chains, lost: set<nat>, d: nat, f: nat) {
    Grown(v0, chains0, v, chains, lost, d) && f < MAX_DESCRIPTORS && v.fds == v0.fds &&
    var size, o := v0.dir[d].filesize, v0.fds[f].offset;
    v.dir[d].filesize == Max(size, o) <= |chains[d]| * BLOCK_SIZE && size <= |chains0[d]| * BLOCK_SIZE &&
    |chains[d]| == Max(Max(|chains0[d]|, 1), if o > size then BlocksFor(o) else 0) &&
    View(v.blocks, chains[d], Max(size, o)) == View(v0.blocks, chains0[d], size) + Zeros(Max(o - size, 0))
  }

  lemma StartedFacts(v0: Volume, chains0: Chains, v: Volume, chains: Chains, lost: set<nat>, d: nat)
    requires Started(v0, chains0, v, chains, lost, d)
    ensures Shape(v0, chains0) && Shape(v, chains) && d < MAX_FILES && v.dir[d].inUse
    ensures chains[d] != [] && v.fds == v0.fds && v.dir[d].filesize == v0.dir[d].filesize
    ensures Capacity(v, chains, d) == Capacity(v0, chains0, d)
  {
  }

  lemma GapFacts(v0: Volume, chains0: Chains, v: Volume, chains: Chains, lost: set<nat>, d: nat, f: nat)
    requires GapFilled(v0, chains0, v, chains, lost, d, f)
    ensures Shape(v, chains) && d < MAX_FILES && v.dir[d].filesize == Min(v0.fds[f].offset, Capacity(v0, chains0, d))
    ensures f < |v0.fds| && v.fds == v0.fds[f := v0.fds[f].(offset := v.fds[f].offset)]
    ensures v.fds[f].offset == v.dir[d].filesize
  {
  }

  lemma PreparedFacts(v0: Volume, chains0: Chains, v: Volume, chains: Chains, lost: set<nat>, d: nat, f: nat)
    requires Prepared(v0, chains0, v, chains, lost, d, f)
    ensures Shape(v, chains) && d < MAX_FILES && chains[d] != [] && v.fds == v0.fds
    ensures v.fds[f].offset <= v.dir[d].filesize
    ensures d < |v0.dir| && d < |chains0| && v.dir[d].filesize == Max(v0.dir[d].filesize, v0.fds[f].offset)
    ensures Capacity(v, chains, d) == Capacity(v0, chains0, d)
  {
  }

  lemma DataFacts(v0: Volume, chains0: Chains, v: Volume, chains: Chains, lost: set<nat>, d: nat,
                  f: nat, data: seq<byte>, r: nat)
    requires DataWritten(v0, chains0, v, chains, lost, d, f, data, r)
    ensures f < |v0.fds| == |v.fds| && d < |v0.dir| == |v.dir| && d < |chains0|
    ensures v.fds == v0.fds[f := v0.fds[f].(offset := v.fds[f].offset)] && v.fds[f].offset == v0.fds[f].offset + r
    ensures v.dir[d].filesize == Max(v0.dir[d].filesize, v0.fds[f].offset + r)
    ensures r == Min(|data|, Capacity(v0, chains0, d) - v0.fds[f].offset)
  {
  }

  /** Growing one file leaves the entries of all others, and its own name. */
  lemma GrownEntries(v0: Volume, chains0: Chains, v: Volume, chains: Chains, lost: set<nat>, d: nat)
    requires Grown(v0, chains0, v, chains, lost, d)
    ensures |v.dir| == |v0.dir| == MAX_FILES && d < MAX_FILES && v.dir[d].filename == v0.dir[d].filename && v.dir[d].inUse
    ensures forall i :: 0 <= i < MAX_FILES && i != d ==> v.dir[i] == v0.dir[i]
  {
  }

  /** Without an open descriptor a write changes nothing. */
  lemma WriteFails(a: State, f: int, data: seq<byte>)
    requires Bounded(a)
    ensures !IsOpen(a.handles, f) ==> WriteStep(a, f, data) == (a, Failed)
  {
  }

  lemma PreparedAfterGap(v0: Volume, chains0: Chains, v1: Volume, chains1: Chains, v2: Volume, chains2: Chains,
                         lost: set<nat>, d: nat, f: nat)
    requires Started(v0, chains0, v1, chains1, lost, d) && f < MAX_DESCRIPTORS
    requires GapFilled(v1, chains1, v2, chains2, lost, d, f)
    requires v0.fds[f].offset <= Capacity(v0, chains0, d) && v1.fds[f].offset > v1.dir[d].filesize
    ensures Prepared(v0, chains0, v2, chains2, lost, d, f)
  {
    hide Inv, GrowthStep;
    GrownCapacity(v0, chains0, v1, chains1, lost, d);
    SizeBound(v0, chains0, lost, d);
    GrownTrans(v0, chains0, v1, chains1, v2, chains2, lost, d);
    GrownView(v0, chains0, v1, chains1, lost, d, v0.dir[d].filesize);
    assert v0.fds[f := v0.fds[f].(offset := v0.fds[f].offset)] == v0.fds;
  }

  lemma PreparedWithoutGap(v0: Volume, chains0: Chains, v1: Volume, chains1: Chains, lost: set<nat>, d: nat, f: nat)
    requires Started(v0, chains0, v1, chains1, lost, d) && f < MAX_DESCRIPTORS
    requires v1.fds[f].offset <= v1.dir[d].filesize
    ensures Prepared(v0, chains0, v1, chains1, lost, d, f)
  {
    GrownView(v0, chains0, v1, chains1, lost, d, v0.dir[d].filesize);
    var content := View(v0.blocks, chains0[d], v0.dir[d].filesize);
    assert content + Zeros(0) == content;
  }

  /** The abstract write, when its offset is within reach. */
  lemma EffectAfterGap(f: File, o: nat, free: nat, data: seq<byte>, r: nat, content: seq<byte>, blocks: nat)
    requires |f.content| <= f.blocks * BLOCK_SIZE && o <= (f.blocks + free) * BLOCK_SIZE && f.blocks + free > 0
    requires data != [] && r == Min(|data|, (f.blocks + free) * BLOCK_SIZE - o)
    requires content == Overlay(f.content + Zeros(Max(o - |f.content|, 0)), o, data[..r])
    requires blocks == Max(Max(Max(f.blocks, 1), if o > |f.content| then BlocksFor(o) else 0), BlocksFor(o + r))
    ensures WriteTo(f, o, free, data) == WriteEffect(File(content, blocks), o + r, f.blocks + free - blocks, r)
  {
  }

  /** The data is written after the gap, if any, was filled. */
  lemma WriteAfterGap(v0: Volume, chains0: Chains, v2: Volume, chains2: Chains, v3: Volume, chains3: Chains,
                      lost: set<nat>, d: nat, f: nat, data: seq<byte>, r: nat)
    requires Prepared(v0, chains0, v2, chains2, lost, d, f)
    requires DataWritten(v2, chains2, v3, chains3, lost, d, f, data, r)
    requires data != [] && v0.fds[f].inUse && v0.fds[f].dirIndex == d
    requires v0.fds[f].offset <= Capacity(v0, chains0, d) && Capacity(v0, chains0, d) > 0
    ensures WriteDone(v0, chains0, v3, chains3, f, data, r)
    ensures Grown(v0, chains0, v3, chains3, lost, d) && (LowOrFull(chains0) ==> LowOrFull(chains3))
  {
    hide Inv, GrowthStep, Grown, LowOrFull, WriteDone, WriteTo, BlocksFor, Overlay;
    GrownTrans(v0, chains0, v2, chains2, v3, chains3, lost, d);
    GrownCapacity(v0, chains0, v2, chains2, lost, d);
    GrownCapacity(v0, chains0, v3, chains3, lost, d);
    InvReadable(v0, chains0, lost);
    InvReadable(v3, chains3, lost);
    EffectAfterGap(FileAt(v0, chains0, d), v0.fds[f].offset, |FreeBlocks(v0.fat)|, data, r,
                   View(v3.blocks, chains3[d], v3.dir[d].filesize), |chains3[d]|);
    WriteFromEffect(v0, chains0, v3, chains3, lost, d, f, data,
                    View(v3.blocks, chains3[d], v3.dir[d].filesize), r);
  }

  /** At most descriptor f's offset and its file's size and first block are not as they were. */
  ghost predicate OneWritten(v0: Volume, v: Volume, f: int) {
    0 <= f < |v0.fds| && v0.fds[f].dirIndex < |v0.dir| == |v.dir| &&
    f < |v.fds| && v.fds == v0.fds[f := v0.fds[f].(offset := v.fds[f].offset)] &&
    var d := v0.fds[f].dirIndex;
    (forall i :: 0 <= i < |v.dir| && i != d ==> v.dir[i] == v0.dir[i]) &&
    v.dir[d].inUse && v.dir[d].filename == v0.dir[d].filename
  }

  /** How a write of n bytes through descriptor f, whose file can reach so far, moves the offset and
      the size, and what it returns. */
  ghost predicate WriteMoves(v0: Volume, v: Volume, f: int, reach: int, n: nat, r: int)
    requires OneWritten(v0, v, f)
  {
    var d := v0.fds[f].dirIndex;
    var size, o := v0.dir[d].filesize, v0.fds[f].offset;
    r == (if reach < o then reach - size else Min(n, reach - o)) &&
    v.fds[f].offset == (if reach < o then reach else o + r) &&
    v.dir[d].filesize == (if reach < o then reach else Max(size, o + r))
  }

  lemma InGapTables(v0: Volume, chains0: Chains, v1: Volume, chains1: Chains, v2: Volume, chains2: Chains,
                    lost: set<nat>, d: nat, f: nat, n: nat)
    requires Started(v0, chains0, v1, chains1, lost, d) && GapFilled(v1, chains1, v2, chains2, lost, d, f)
    requires Grown(v0, chains0, v2, chains2, lost, d) && v0.fds[f].dirIndex == d
    requires Capacity(v0, chains0, d) < v0.fds[f].offset
    ensures OneWritten(v0, v2, f)
    ensures WriteMoves(v0, v2, f, Capacity(v0, chains0, d), n, v2.dir[d].filesize - v0.dir[d].filesize)
  {
    StartedFacts(v0, chains0, v1, chains1, lost, d);
    GapFacts(v1, chains1, v2, chains2, lost, d, f);
    GrownEntries(v0, chains0, v2, chains2, lost, d);
  }

  lemma AfterGapTables(v0: Volume, chains0: Chains, v2: Volume, chains2: Chains, v3: Volume, chains3: Chains,
                       lost: set<nat>, d: nat, f: nat, data: seq<byte>, r: nat)
    requires Prepared(v0, chains0, v2, chains2, lost, d, f)
    requires DataWritten(v2, chains2, v3, chains3, lost, d, f, data, r)
    requires Grown(v0, chains0, v3, chains3, lost, d) && v0.fds[f].dirIndex == d
    requires v0.fds[f].offset <= Capacity(v0, chains0, d)
    ensures OneWritten(v0, v3, f) && WriteMoves(v0, v3, f, Capacity(v0, chains0, d), |data|, r)
  {
    PreparedFacts(v0, chains0, v2, chains2, lost, d, f);
    DataFacts(v2, chains2, v3, chains3, lost, d, f, data, r);
    GrownEntries(v0, chains0, v3, chains3, lost, d);
  }

  /** The offset of open descriptor f is inside its file. */
  ghost predicate Inside(v: Volume, f: int) {
    0 <= f < |v.fds| && v.fds[f].inUse && v.fds[f].dirIndex < |v.dir| &&
    v.fds[f].offset <= v.dir[v.fds[f].dirIndex].filesize
  }

  lemma NotInside(v: Volume, f: int)
    ensures Inside(v, f) ==> 0 <= f < |v.fds| && v.fds[f].inUse
  {
  }

  /** How far descriptor f's file can reach: its own blocks and the free ones, in bytes. */
  ghost function Reach(v: Volume, chains: Chains, f: int): int
    requires 0 <= f < |v.fds| && v.fds[f].dirIndex < |chains|
  {
    Capacity(v, chains, v.fds[f].dirIndex)
  }

  /** Room behind descriptor f's offset: the blocks of its file and the free ones. */
  ghost function Room(v: Volume, chains: Chains, f: int): int
    requires Inside(v, f) && |v.dir| == |chains|
  {
    Capacity(v, chains, v.fds[f].dirIndex) - v.fds[f].offset
  }

  /** The bound on short writes, in terms of the tables: as many bytes go in as there is room for,
      and all of them if any block is left free. */
  lemma WriteBound(v0: Volume, chains0: Chains, v: Volume, chains: Chains, f: nat, data: seq<byte>, r: int)
    requires Readable(v0, chains0) && Readable(v, chains)
    requires WriteDone(v0, chains0, v, chains, f, data, r)
    ensures Inside(v0, f) ==> r == Min(|data|, Room(v0, chains0, f)) && (|FreeBlocks(v.fat)| > 0 ==> r == |data|)
  {
    hide WriteTo, Files;
    if !Inside(v0, f) { return; }
    var d, o := v0.fds[f].dirIndex, v0.fds[f].offset;
    FileOf(v0, chains0, d);
    assert Handles(v0)[f] == HandleAt(v0.fds, v0.dir, f);
    ShortWriteBound(FileAt(v0, chains0, d), o, |FreeBlocks(v0.fat)|, data);
  }
}
