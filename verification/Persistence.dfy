/** What survives on the disk between sessions. */
module Persistence {
  import opened Bytes
  import opened Collections
  import opened Volumes
  import opened AbstractFs
  import opened Refinement
  import opened Growth
  import opened Layout

  const UNSAVED: int := DISK_BLOCKS - SAVED_ENTRIES

  /** The entries that mounting leaves uninitialised, in the best case. */
  function FreeTail(): (t: seq<uint32>)
    ensures |t| == UNSAVED && forall k :: 0 <= k < |t| ==> t[k] == FAT_FREE
  {
    seq(UNSAVED, _ => FAT_FREE)
  }

  function NoDescriptors(): (fds: seq<FileDescriptor>)
    ensures |fds| == MAX_DESCRIPTORS && forall h :: 0 <= h < |fds| ==> fds[h] == FileDescriptor(false, 0, 0)
  {
    seq(MAX_DESCRIPTORS, _ => FileDescriptor(false, 0, 0))
  }

  function NoChains(): (chains: Chains)
    ensures |chains| == MAX_FILES && forall i :: 0 <= i < |chains| ==> chains[i] == []
  {
    seq(MAX_FILES, _ => [])
  }

  /** The volume that mounting builds, `tail` being what the allocator left in memory. */
  function Loaded(blocks: seq<Block>, tail: seq<uint32>): (v: Volume)
    requires |blocks| == DISK_BLOCKS && |tail| == UNSAVED
    ensures |v.fat| == DISK_BLOCKS
  {
    Volume(SavedFat(blocks) + tail, SavedDirectory(blocks), NoDescriptors(), blocks)
  }

  /** A disk image of a volume whose chains are all in the saved part of the table. */
  ghost predicate ImageOk(blocks: seq<Block>, chains: Chains) {
    |blocks| == DISK_BLOCKS && DecodeSuperblock(blocks[0]) == Standard &&
    Low(chains) && Inv(Loaded(blocks, FreeTail()), chains, {})
  }

  ghost function ImageFiles(blocks: seq<Block>, chains: Chains): map<seq<byte>, File>
    requires ImageOk(blocks, chains)
  {
    Files(Loaded(blocks, FreeTail()), chains)
  }

  /** Blocks of the unsaved part that garbage marks as used. */
  ghost function LostIn(fat: seq<uint32>): set<nat> {
    set b: nat | SAVED_ENTRIES <= b < |fat| && fat[b] != FAT_FREE
  }

  lemma LowChain(chains: Chains, i: nat)
    requires i < |chains| && Low(chains)
    ensures forall p :: 0 <= p < |chains[i]| ==> chains[i][p] < SAVED_ENTRIES
  {
    forall p | 0 <= p < |chains[i]| ensures chains[i][p] < SAVED_ENTRIES {
      assert chains[i][p] in Owned(chains);
    }
  }

  /** Chains in the saved part survive any change elsewhere. */
  lemma LowChainsFrame(fat: seq<uint32>, fat': seq<uint32>, dir: seq<DirEntry>, chains: Chains)
    requires |fat| == |fat'| == DISK_BLOCKS && |dir| == |chains| && ChainsInv(fat, dir, chains) && Low(chains)
    requires fat'[..SAVED_ENTRIES] == fat[..SAVED_ENTRIES]
    ensures ChainsInv(fat', dir, chains)
  {
    forall i | 0 <= i < |chains| && dir[i].inUse ensures IsChain(fat', dir[i].firstBlock, chains[i]) {
      LowChain(chains, i);
      forall p | 0 <= p < |chains[i]| ensures fat'[chains[i][p]] == fat[chains[i][p]] {
        assert fat'[..SAVED_ENTRIES][chains[i][p]] == fat[..SAVED_ENTRIES][chains[i][p]];
      }
      ChainFrame(fat, fat', dir[i].firstBlock, chains[i]);
    }
  }

  lemma AccountedFrame(fat: seq<uint32>, fat': seq<uint32>, owned: set<nat>, lost: set<nat>, lost': set<nat>)
    requires |fat| == |fat'| == DISK_BLOCKS && Accounted(fat, owned, lost)
    requires fat'[..SAVED_ENTRIES] == fat[..SAVED_ENTRIES]
    requires forall b :: b in owned ==> b < SAVED_ENTRIES
    requires forall b :: b in lost' <==> SAVED_ENTRIES <= b < DISK_BLOCKS && fat'[b] != FAT_FREE
    ensures Accounted(fat', owned, lost')
  {
    forall b | 0 <= b < SAVED_ENTRIES ensures fat'[b] == fat[b] {
      assert fat'[..SAVED_ENTRIES][b] == fat[..SAVED_ENTRIES][b];
    }
  }

  /** Whatever the uninitialised entries hold, a good image mounts to the same files. */
  lemma MountAnyTail(blocks: seq<Block>, chains: Chains, tail: seq<uint32>)
    requires ImageOk(blocks, chains) && |tail| == UNSAVED
    ensures Inv(Loaded(blocks, tail), chains, LostIn(Loaded(blocks, tail).fat))
    ensures Files(Loaded(blocks, tail), chains) == ImageFiles(blocks, chains)
  {
    var v, v' := Loaded(blocks, FreeTail()), Loaded(blocks, tail);
    assert v'.fat[..SAVED_ENTRIES] == v.fat[..SAVED_ENTRIES];
    LowChainsFrame(v.fat, v'.fat, v.dir, chains);
    AccountedFrame(v.fat, v'.fat, Owned(chains), {}, LostIn(Loaded(blocks, tail).fat));
    FilesSame(v, chains, v', chains);
  }

  lemma LoadedShape(v: Volume, chains: Chains, lost: set<nat>, blocks': seq<Block>, v': Volume)
    requires Inv(v, chains, lost) && Low(chains) && |blocks'| == DISK_BLOCKS
    requires v'.fat == v.fat[..SAVED_ENTRIES] + FreeTail() && v'.dir == v.dir
    requires v'.fds == NoDescriptors() && v'.blocks == blocks'
    ensures Inv(v', chains, {})
  {
    assert v'.fat[..SAVED_ENTRIES] == v.fat[..SAVED_ENTRIES];
    LowChainsFrame(v.fat, v'.fat, v.dir, chains);
    AccountedFrame(v.fat, v'.fat, Owned(chains), lost, {});
  }

  lemma SameFiles(v: Volume, v': Volume, chains: Chains)
    requires Readable(v, chains) && Readable(v', chains) && v'.dir == v.dir
    requires SameOutside(v.blocks, v'.blocks, [])
    ensures Files(v', chains) == Files(v, chains)
  {
    forall i | 0 <= i < MAX_FILES && v.dir[i].inUse ensures FileAt(v', chains, i) == FileAt(v, chains, i) {
      SameView(v.blocks, v'.blocks, chains[i], chains[i], v.dir[i].filesize);
    }
    FilesSame(v, chains, v', chains);
  }

  /** Saving the metadata of a session with low chains makes a good image of its files. */
  lemma SaveImage(v: Volume, chains: Chains, lost: set<nat>, blocks': seq<Block>)
    requires Inv(v, chains, lost) && Low(chains)
    requires Recorded(blocks', v.fat, v.dir) && SameOutside(v.blocks, blocks', [])
    ensures ImageOk(blocks', chains) && ImageFiles(blocks', chains) == Files(v, chains)
  {
    hide Inv, EncodeFat, EncodeDirectory, EncodeSuperblock, DecodeSuperblock, SavedFat, SavedDirectory, Recorded;
    RecordedRoundTrip(blocks', v.fat, v.dir);
    var v' := Loaded(blocks', FreeTail());
    LoadedShape(v, chains, lost, blocks', v');
    InvReadable(v, chains, lost);
    InvReadable(v', chains, {});
    SameFiles(v, v', chains);
  }

  /** Following the links from `first` leaves no choice: two chains agree as far as their tables do. */
  lemma {:induction false} ChainsAgree(fat: seq<uint32>, fat': seq<uint32>, first: uint32, c: seq<nat>, c': seq<nat>, p: nat)
    requires |fat| == |fat'| == DISK_BLOCKS && InData(c) && InData(c') && p < |c|
    requires IsChain(fat, first, c) && IsChain(fat', first, c')
    requires forall q :: 0 <= q < p ==> fat'[c[q]] == fat[c[q]]
    ensures p < |c'| && c'[p] == c[p]
  {
    if p > 0 {
      ChainsAgree(fat, fat', first, c, c', p - 1);
      assert fat[c[p - 1]] == Link(c, p - 1);
      assert fat'[c'[p - 1]] == Link(c', p - 1);
    }
  }

  lemma {:induction false} FirstHigh(c: seq<nat>) returns (p: nat)
    requires exists q :: 0 <= q < |c| && c[q] >= SAVED_ENTRIES
    ensures p < |c| && c[p] >= SAVED_ENTRIES && forall q :: 0 <= q < p ==> c[q] < SAVED_ENTRIES
  {
    if c[0] >= SAVED_ENTRIES {
      p := 0;
    } else {
      p := FirstHigh(c[1..]);
      p := p + 1;
    }
  }

  /** With the unsaved entries free, no chain can be followed into them. */
  lemma HighChainBreaks(fat: seq<uint32>, fat': seq<uint32>, first: uint32, c: seq<nat>, c': seq<nat>)
    requires |fat| == DISK_BLOCKS && fat' == fat[..SAVED_ENTRIES] + FreeTail()
    requires InData(c) && InData(c') && IsChain(fat, first, c) && IsChain(fat', first, c')
    ensures forall q :: 0 <= q < |c| ==> c[q] < SAVED_ENTRIES
  {
    if exists q :: 0 <= q < |c| && c[q] >= SAVED_ENTRIES {
      var p := FirstHigh(c);
      ChainsAgree(fat, fat', first, c, c', p);
      ChainNotFree(fat', first, c', p);
      assert false;
    }
  }

  lemma ChainNotFree(fat: seq<uint32>, first: uint32, c: seq<nat>, p: nat)
    requires |fat| == DISK_BLOCKS && InData(c) && IsChain(fat, first, c) && p < |c|
    ensures fat[c[p]] != FAT_FREE
  {
    assert fat[c[p]] == Link(c, p);
  }

  lemma HighChainsBreak(v: Volume, chains: Chains, lost: set<nat>, v': Volume, chains': Chains, lost': set<nat>)
    requires Inv(v, chains, lost) && Inv(v', chains', lost')
    requires v'.dir == v.dir && v'.fat == v.fat[..SAVED_ENTRIES] + FreeTail()
    ensures Low(chains)
  {
    hide IsChain;
    forall i | 0 <= i < |chains| ensures forall q :: 0 <= q < |chains[i]| ==> chains[i][q] < SAVED_ENTRIES {
      if v.dir[i].inUse {
        HighChainBreaks(v.fat, v'.fat, v.dir[i].firstBlock, chains[i], chains'[i]);
      }
    }
  }

  /** Mounting the image with these unsaved entries gives a consistent volume with these files. */
  ghost predicate MountsAs(blocks: seq<Block>, tail: seq<uint32>, files: map<seq<byte>, File>)
    requires |blocks| == DISK_BLOCKS && |tail| == UNSAVED
  {
    exists chains, lost ::
      Inv(Loaded(blocks, tail), chains, lost) && Readable(Loaded(blocks, tail), chains) &&
      Files(Loaded(blocks, tail), chains) == files
  }

  /** A saved session mounts again, to the same files whatever memory holds, exactly when all its
      chains are low. */
  lemma RemountIffLow(v: Volume, chains: Chains, lost: set<nat>, blocks': seq<Block>)
    requires Inv(v, chains, lost) && Readable(v, chains)
    requires Recorded(blocks', v.fat, v.dir) && SameOutside(v.blocks, blocks', [])
    ensures (forall tail :: |tail| == UNSAVED ==> MountsAs(blocks', tail, Files(v, chains))) <==> Low(chains)
  {
    hide Inv, Recorded, Low, Files;
    RecordedRoundTrip(blocks', v.fat, v.dir);
    if Low(chains) {
      SaveImage(v, chains, lost, blocks');
      forall tail: seq<uint32> | |tail| == UNSAVED ensures MountsAs(blocks', tail, Files(v, chains)) {
        MountAnyTail(blocks', chains, tail);
        InvReadable(Loaded(blocks', tail), chains, LostIn(Loaded(blocks', tail).fat));
      }
    } else if MountsAs(blocks', FreeTail(), Files(v, chains)) {
      var chains', lost' :| Inv(Loaded(blocks', FreeTail()), chains', lost');
      HighChainsBreak(v, chains, lost, Loaded(blocks', FreeTail()), chains', lost');
    }
  }

  /** A freshly formatted image holds no files. */
  lemma FormattedImage(blocks: seq<Block>, fat: seq<uint32>, dir: seq<DirEntry>)
    requires Recorded(blocks, fat, dir)
    requires forall b :: 0 <= b < DISK_BLOCKS ==> fat[b] == FAT_FREE
    requires forall i :: 0 <= i < MAX_FILES ==> dir[i] == EmptyEntry
    ensures ImageOk(blocks, NoChains()) && ImageFiles(blocks, NoChains()) == map[]
  {
    hide EncodeFat, EncodeDirectory, EncodeSuperblock, DecodeSuperblock, SavedFat, SavedDirectory, Recorded;
    RecordedRoundTrip(blocks, fat, dir);
    var chains: Chains := NoChains();
    var v := Loaded(blocks, FreeTail());
    assert Owned(chains) == {};
    forall b | 0 <= b < DISK_BLOCKS ensures v.fat[b] == FAT_FREE {
      assert b < SAVED_ENTRIES ==> v.fat[b] == SavedFat(blocks)[b] == fat[..SAVED_ENTRIES][b];
    }
    var m := Files(v, chains);
    forall x | x in m ensures false {
      var i := SlotOf(v, chains, x);
    }
  }

  lemma ImageMagic(blocks: seq<Block>, chains: Chains)
    requires ImageOk(blocks, chains)
    ensures |blocks| == DISK_BLOCKS && DecodeSuperblock(blocks[0]) == Standard && Standard.magic == MAGIC
  {
  }

  /** Without files, all the blocks of the saved part of the table are free. */
  lemma FreshlyMounted(v: Volume, lost: set<nat>)
    requires Inv(v, NoChains(), lost) && Readable(v, NoChains())
    requires Abs(v, NoChains()).files == map[]
    requires forall h :: 0 <= h < MAX_DESCRIPTORS ==> Abs(v, NoChains()).handles[h] == AbstractFs.Closed
    ensures Abs(v, NoChains()) == Empty(|FreeBlocks(v.fat)|)
    ensures SAVED_ENTRIES - DATA_START <= |FreeBlocks(v.fat)| <= DISK_BLOCKS - DATA_START
  {
    assert Abs(v, NoChains()).handles == AllClosed();
    BlockConservation(v, NoChains(), lost);
    NothingOwned(NoChains());
    SubsetSize(lost, Range(SAVED_ENTRIES, DISK_BLOCKS));
  }

  lemma {:induction false} NothingOwned(chains: Chains)
    requires forall i :: 0 <= i < |chains| ==> chains[i] == []
    ensures TotalLength(chains) == 0
  {
    if chains != [] { NothingOwned(chains[..|chains| - 1]); }
  }
}
