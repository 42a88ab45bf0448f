/** The file system proper: static tables updated in place by every call. */
module FileSystems {
  import opened Bytes
  import opened Collections
  import opened Volumes
  import opened AbstractFs
  import opened Refinement
  import opened Growth
  import opened Layout
  import opened Disks
  import opened Calls
  import opened Sessions
  import opened Reachability
  import opened Persistence

  class FileSystem {
    const disk: Disk
    const dir: array<DirEntry>
    const fds: array<FileDescriptor>
    var superblock: Superblock
    var fat: array?<uint32>
    var mounted: bool

    /** The block chain of each directory slot. */
    ghost var chains: Chains
    /** Data blocks that the unsaved part of the table marked as used at mount. */
    ghost var lost: set<nat>

    /** The zero-initialised statics of a program that has not mounted anything. */
    constructor (d: Disk)
      requires !d.active && d.image.Length == DISK_BLOCKS
      ensures disk == d && !mounted && Valid() && fresh(dir) && fresh(fds)
    {
      disk := d;
      dir := new DirEntry[MAX_FILES](_ => EmptyEntry);
      fds := new FileDescriptor[MAX_DESCRIPTORS](_ => FileDescriptor(false, 0, 0));
      superblock := Superblock(0, 0, 0, 0, 0, 0, 0, 0);
      fat := null;
      mounted := false;
      chains := [];
      lost := {};
    }

    ghost predicate Tables()
      reads this, disk
    {
      disk.image.Length == DISK_BLOCKS && dir.Length == MAX_FILES && fds.Length == MAX_DESCRIPTORS &&
      (mounted <==> disk.active) && (mounted <==> fat != null)
    }

    ghost function Vol(): Volume
      requires fat != null
      reads this, fat, dir, fds, disk.image
    {
      Volume(fat[..], dir[..], fds[..], disk.image[..])
    }

    /** A mounted session in a consistent state. */
    ghost predicate Session()
      reads this, disk, fat, dir, fds, disk.image
    {
      Tables() && mounted && superblock == Standard && fat.Length == DISK_BLOCKS && Inv(Vol(), chains, lost)
    }

    predicate InUse(fildes: int)
      reads fds
    {
      0 <= fildes < fds.Length && fds[fildes].inUse
    }

    ghost predicate Valid()
      reads this, disk, fat, dir, fds, disk.image
    {
      Tables() && (mounted ==> Session())
    }

    ghost function Meaning(): State
      requires Session()
      reads this, disk, fat, dir, fds, disk.image
    {
      Abs(Vol(), chains)
    }

    // -------------------------------------------------------------- the allocation table

    /** First-fit scan: marks and returns the first free data block, or FAT_FREE. */
    method AllocateFreeBlock() returns (b: uint32)
      requires Tables() && mounted && superblock == Standard && fat.Length == DISK_BLOCKS
      modifies fat
      ensures if b == FAT_FREE
              then fat[..] == old(fat[..]) && forall x :: DATA_START <= x < DISK_BLOCKS ==> fat[x] != FAT_FREE
              else FirstFree(old(fat[..]), b) && fat[..] == old(fat[..])[b := FAT_EOF]
    {
      var i := superblock.dataStart;
      while i < superblock.totalBlocks
        invariant DATA_START <= i <= DISK_BLOCKS
        invariant fat[..] == old(fat[..])
        invariant forall x :: DATA_START <= x < i ==> fat[x] != FAT_FREE
      {
        if fat[i] == FAT_FREE {
          assert FirstFree(old(fat[..]), i);
          fat[i] := FAT_EOF;
          return i;
        }
        i := i + 1;
      }
      return FAT_FREE;
    }

    /** Follows a chain for `offset` bytes or to its end. */
    method Walk(first: uint32, offset: nat, ghost c: seq<nat>) returns (block: uint32, rest: nat, ghost i: nat)
      requires fat != null && fat.Length == DISK_BLOCKS && InData(c) && IsChain(fat[..], first, c)
      ensures var k := Min(|c|, offset / BLOCK_SIZE);
              i == k && rest == offset - k * BLOCK_SIZE && block == if k < |c| then c[k] else FAT_EOF
    {
      block, rest, i := first, offset, 0;
      while rest >= BLOCK_SIZE && block != FAT_EOF
        invariant i <= |c| && rest == offset - i * BLOCK_SIZE
        invariant block == if i < |c| then c[i] else FAT_EOF
        decreases rest
      {
        assert fat[..][c[i]] == Link(c, i);
        block := fat[block];
        rest := rest - BLOCK_SIZE;
        i := i + 1;
      }
    }

    /** What the table has for the block at position p of a chain. */
    method FollowLink(block: uint32, ghost first: uint32, ghost c: seq<nat>, ghost p: nat) returns (next: uint32)
      requires fat != null && fat.Length == DISK_BLOCKS && InData(c) && IsChain(fat[..], first, c)
      requires p < |c| && block == c[p]
      ensures next == (if p + 1 < |c| then c[p + 1] else FAT_EOF) && (next == FAT_EOF <==> p + 1 == |c|)
    {
      assert fat[..][c[p]] == Link(c, p);
      next := fat[block];
    }

    /** The last block of a non-empty chain. */
    method LastBlock(first: uint32, ghost c: seq<nat>) returns (last: uint32)
      requires fat != null && fat.Length == DISK_BLOCKS && InData(c) && c != [] && IsChain(fat[..], first, c)
      ensures last == c[|c| - 1]
    {
      last := first;
      ghost var i := 0;
      assert fat[..][c[i]] == Link(c, i);
      while fat[last] != FAT_EOF
        invariant i < |c| && last == c[i] && fat[..][c[i]] == Link(c, i)
        decreases |c| - i
      {
        last := fat[last];
        i := i + 1;
        assert fat[..][c[i]] == Link(c, i);
      }
    }

    /** Frees every block that the links reach from `start`, on any table whose links stay
        inside some region of it; cycles included. */
    method FreeBlockChain(start: uint32, ghost region: set<nat>)
      requires fat != null && StaysInside(fat[..], region, start)
      modifies fat
      ensures forall x :: 0 <= x < fat.Length ==>
                fat[x] == if Reaches(old(fat[..]), start, x) then FAT_FREE else old(fat[x])
    {
      ghost var table := fat[..];
      ghost var visited: set<nat> := {};
      var block := start;
      if !Terminal(start) {
        assert OnPath(table, start, start, 0);
      }
      while block != FAT_EOF && block != FAT_FREE
        invariant Terminal(block) || (block in region && Reaches(table, start, block))
        invariant visited <= region
        invariant forall x :: 0 <= x < fat.Length ==> fat[x] == if x in visited then FAT_FREE else table[x]
        invariant forall x :: x in visited ==> Reaches(table, start, x)
        invariant Terminal(start) || start in visited || start == block
        invariant forall x :: x in visited ==> Terminal(table[x]) || table[x] in visited || table[x] == block
        decreases region - visited, if Terminal(block) then 0 else 1
      {
        var next := fat[block];
        fat[block] := FAT_FREE;
        if block !in visited {
          ReachesNext(table, start, block);
        }
        visited := visited + {block};
        block := next;
      }
      forall x | 0 <= x < fat.Length && Reaches(table, start, x) ensures x in visited {
        assert StaysInside(table, visited, start);
        ReachesInside(table, visited, start, x);
      }
    }

    // -------------------------------------------------------------- metadata

    /** Saves the superblock, the first part of the table and the directory. */
    method WriteMetadataToDisk()
      requires disk.active && disk.image.Length == DISK_BLOCKS && dir.Length == MAX_FILES
      requires superblock == Standard && fat != null && fat.Length == DISK_BLOCKS
      modifies disk.image
      ensures Recorded(disk.image[..], fat[..], dir[..])
      ensures SameOutside(old(disk.image[..]), disk.image[..], [])
    {
      var r := disk.BlockWrite(0, EncodeSuperblock(superblock));
      var i := 0;
      while i < superblock.fatBlockCount
        invariant 0 <= i <= 2
        invariant disk.image[0] == EncodeSuperblock(Standard)
        invariant i >= 1 ==> disk.image[1] == EncodeFat(fat[..], 0)
        invariant i >= 2 ==> disk.image[2] == EncodeFat(fat[..], ENTRIES_PER_BLOCK)
        invariant forall b :: DATA_START <= b < DISK_BLOCKS ==> disk.image[b] == old(disk.image[b])
      {
        r := disk.BlockWrite(superblock.fatStart + i, EncodeFat(fat[..], i * ENTRIES_PER_BLOCK));
        i := i + 1;
      }
      r := disk.BlockWrite(superblock.dirStart, EncodeDirectory(dir[..]));
    }

    // -------------------------------------------------------------- writing

    /** Allocates a block and links it behind the last block of the chain in slot d. */
    method AllocateBehind(last: uint32, ghost d: nat) returns (b: uint32)
      requires Session() && d < MAX_FILES && dir[d].inUse
      requires chains[d] != [] && last == chains[d][|chains[d]| - 1]
      modifies this`chains, fat
      ensures Session()
      ensures if b == FAT_FREE
              then Vol() == old(Vol()) && chains == old(chains) && |FreeBlocks(fat[..])| == 0
              else FirstFree(old(fat[..]), b) &&
                   Vol() == old(Vol().(fat := Linked(fat[..], chains[d], b))) &&
                   chains == old(chains[d := chains[d] + [b]])
    {
      ghost var v := Vol();
      b := AllocateFreeBlock();
      if b == FAT_FREE {
        assert FreeBlocks(fat[..]) == {};
        assert Vol() == v;
        return;
      }
      GrowInv(v, chains, lost, d, b);
      fat[last] := b;
      chains := chains[d := chains[d] + [b]];
      assert fat[..] == Linked(v.fat, old(chains[d]), b);
      assert Vol() == v.(fat := Linked(v.fat, old(chains[d]), b));
    }

    /** Finds the block that holds byte `offset` of the file in slot d, appending one if need be. */
    method Locate(d: nat, offset: nat) returns (block: uint32, off: nat, ghost i: nat)
      requires Session() && d < MAX_FILES && dir[d].inUse
      requires chains[d] != [] && offset <= |chains[d]| * BLOCK_SIZE
      modifies this`chains, fat
      ensures Session() && Grown(old(Vol()), old(chains), Vol(), chains, lost, d)
      ensures dir[..] == old(dir[..]) && fds[..] == old(fds[..]) && disk.image[..] == old(disk.image[..])
      ensures if block == FAT_EOF
              then Vol() == old(Vol()) && chains == old(chains) &&
                   |FreeBlocks(fat[..])| == 0 && offset == |chains[d]| * BLOCK_SIZE
              else i == offset / BLOCK_SIZE && off == offset % BLOCK_SIZE &&
                   |chains[d]| == Max(old(|chains[d]|), i + 1) && block == chains[d][i]
    {
      ghost var v := Vol();
      GrownStart(v, chains, lost, d);
      block, off, i := Walk(dir[d].firstBlock, offset, chains[d]);
      assert off < BLOCK_SIZE;  // so the loops of fs.c:347-363 and 446-462 are never entered
      if block == FAT_EOF {
        var last := LastBlock(dir[d].firstBlock, chains[d]);
        var b := AllocateBehind(last, d);
        if b != FAT_FREE {
          GrowBlock(v, old(chains), v, old(chains), lost, d, b);
          block := b;
        }
      }
    }

    /** Reads a block, copies `piece` into it at `off` and writes it back. */
    method PatchBlock(block: uint32, off: nat, piece: seq<byte>, ghost i: nat,
                      ghost v0: Volume, ghost chains0: Chains, ghost d: nat,
                      ghost content: seq<byte>, ghost o: nat, ghost done: seq<byte>)
      requires Session() && Writing(v0, chains0, Vol(), chains, lost, d, content, o, done)
      requires i < |chains[d]| && block == chains[d][i]
      requires off + |piece| <= BLOCK_SIZE && i * BLOCK_SIZE + off == o + |done|
      modifies disk.image
      ensures Session() && Writing(v0, chains0, Vol(), chains, lost, d, content, o, done + piece)
    {
      ghost var v := Vol();
      InvShape(v, chains, lost);
      var r, buf := disk.BlockRead(block);
      assert r == 0;
      r := disk.BlockWrite(block, Patch(buf, off, piece));
      assert r == 0;
      assert Vol() == v.(blocks := v.blocks[block := Patch(v.blocks[block], off, piece)]);
      WritingPatch(v0, chains0, v, chains, lost, d, content, o, done, i, off, piece);
      WritingInv(v0, chains0, Vol(), chains, lost, d, content, o, done + piece);
    }

    /** The block behind position i of the chain in slot d, allocated if there is none. */
    method NextBlock(block: uint32, ghost i: nat, ghost v0: Volume, ghost chains0: Chains, ghost d: nat,
                     ghost content: seq<byte>, ghost o: nat, ghost done: seq<byte>) returns (next: uint32)
      requires Session() && Writing(v0, chains0, Vol(), chains, lost, d, content, o, done)
      requires i < |chains[d]| && block == chains[d][i]
      modifies this`chains, fat
      ensures Session() && Writing(v0, chains0, Vol(), chains, lost, d, content, o, done)
      ensures if next == FAT_FREE
              then chains == old(chains) && |FreeBlocks(fat[..])| == 0 && i + 1 == |chains[d]|
              else i + 1 < |chains[d]| && next == chains[d][i + 1] && |chains[d]| == Max(old(|chains[d]|), i + 2)
    {
      hide Distinct, Apart, Accounted, NamesInv, SameOutside;
      ghost var v, c := Vol(), chains[d];
      WritingInv(v0, chains0, v, chains, lost, d, content, o, done);
      next := fat[block];
      assert fat[..][c[i]] == Link(c, i);
      if next == FAT_EOF {
        next := AllocateBehind(block, d);
        if next != FAT_FREE {
          WritingBlock(v0, chains0, v, old(chains), lost, d, content, o, done, next);
          assert Vol() == v.(fat := Linked(v.fat, c, next));
        }
      }
    }

    /** One round of the copying loop: fills part of a block and, if more bytes follow, moves on
        to the next block. The result is FAT_FREE when there is none. */
    method PutPiece(block: uint32, off: nat, piece: seq<byte>, more: bool, ghost i: nat,
                    ghost v0: Volume, ghost chains0: Chains, ghost d: nat,
                    ghost content: seq<byte>, ghost o: nat, ghost done: seq<byte>) returns (next: uint32)
      requires Session() && Writing(v0, chains0, Vol(), chains, lost, d, content, o, done)
      requires i < |chains[d]| && block == chains[d][i] && i * BLOCK_SIZE + off == o + |done|
      requires off + |piece| <= BLOCK_SIZE
      modifies this`chains, fat, disk.image
      ensures Session() && Writing(v0, chains0, Vol(), chains, lost, d, content, o, done + piece)
      ensures d < |chains| == MAX_FILES && (off + |piece| < BLOCK_SIZE || !more ==> next == block && chains == old(chains))
      ensures off + |piece| == BLOCK_SIZE && more ==>
                if next == FAT_FREE
                then chains == old(chains) && |FreeBlocks(fat[..])| == 0 && i + 1 == |chains[d]|
                else i + 1 < |chains[d]| && next == chains[d][i + 1] && |chains[d]| == Max(old(|chains[d]|), i + 2)
    {
      PatchBlock(block, off, piece, i, v0, chains0, d, content, o, done);
      next := block;
      if off + |piece| == BLOCK_SIZE && more {
        next := NextBlock(block, i, v0, chains0, d, content, o, done + piece);
      }
    }

    /** Copies `bytes` into the file's blocks from a position on, allocating as it goes;
        stops early when the disk is full. */
    method PutBytes(start: uint32, startOff: nat, bytes: seq<byte>, ghost d: nat, ghost i0: nat, ghost content: seq<byte>)
      returns (written: nat)
      requires Session() && d < MAX_FILES && dir[d].inUse
      requires i0 < |chains[d]| && chains[d][i0] == start && startOff < BLOCK_SIZE && bytes != []
      requires i0 * BLOCK_SIZE + startOff <= |content| <= |chains[d]| * BLOCK_SIZE
      requires content == View(disk.image[..], chains[d], |content|)
      modifies this`chains, fat, disk.image
      ensures Session()
      ensures 0 < written <= |bytes|
      ensures var o := i0 * BLOCK_SIZE + startOff;
              Writing(old(Vol()), old(chains), Vol(), chains, lost, d, content, o, bytes[..written]) &&
              |chains[d]| == Max(old(|chains[d]|), BlocksFor(o + written)) &&
              (written < |bytes| ==> |FreeBlocks(fat[..])| == 0 && o + written == |chains[d]| * BLOCK_SIZE)
    {
      hide Distinct, Apart, Accounted, NamesInv, SameOutside, InData, Writing;
      ghost var v0, chains0 := Vol(), chains;
      ghost var o := i0 * BLOCK_SIZE + startOff;
      WritingStart(v0, chains0, lost, d, |content|, o);
      assert |chains| == MAX_FILES;
      ghost var i: nat := i0;
      var block, off: nat, remaining: nat := start, startOff, |bytes|;
      written := 0;
      assert bytes[..0] == [];
      while remaining > 0
        invariant written + remaining == |bytes| && |chains| == |chains0| == MAX_FILES
        invariant Session() && Writing(v0, chains0, Vol(), chains, lost, d, content, o, bytes[..written])
        invariant i < |chains[d]| && block == chains[d][i] && i * BLOCK_SIZE + off == o + written
        invariant off <= BLOCK_SIZE && (remaining > 0 ==> off < BLOCK_SIZE) && (remaining == 0 ==> off > 0)
        invariant |chains[d]| == Max(|chains0[d]|, i + 1)
        decreases remaining
      {
        WritingInv(v0, chains0, Vol(), chains, lost, d, content, o, bytes[..written]);
        var chunk := Min(BLOCK_SIZE - off, remaining);
        TakeMore(bytes, written, written + chunk);
        block := PutPiece(block, off, bytes[written..written + chunk], remaining > chunk,
                          i, v0, chains0, d, content, o, bytes[..written]);
        written := written + chunk;
        remaining := remaining - chunk;
        off := off + chunk;
        if off == BLOCK_SIZE && remaining > 0 {
          if block == FAT_FREE {
            LastBlockOf(i, off);
            return;
          }
          off := 0;
          i := i + 1;
        }
      }
      LastBlockOf(i, off);
    }

    /** Appends up to `needed` zeros to the file in slot d, as many as the disk has room for. */
    method AppendZeros(d: nat, size: nat, needed: nat) returns (extended: nat)
      requires Session() && d < MAX_FILES && dir[d].inUse && chains[d] != []
      requires size == dir[d].filesize && needed > 0
      modifies this`chains, fat, disk.image
      ensures Session() && ZeroExtended(old(Vol()), old(chains), Vol(), chains, lost, d, size, extended)
      ensures extended == Min(needed, old(Capacity(Vol(), chains, d)) - size)
      ensures |chains[d]| == Max(old(|chains[d]|), BlocksFor(size + extended))
    {
      hide Inv, GrowthStep, Writing, InData;
      ghost var v0, chains0 := Vol(), chains;
      GrownStart(v0, chains0, lost, d);
      GrownCapacity(v0, chains0, v0, chains0, lost, d);
      SizeBound(v0, chains0, lost, d);
      ghost var content := View(v0.blocks, chains0[d], size);
      var block, off, i := Locate(d, size);
      GrownCapacity(v0, chains0, Vol(), chains, lost, d);
      GrownView(v0, chains0, Vol(), chains, lost, d, size);
      extended := 0;
      if block != FAT_EOF {
        ghost var v1, chains1 := Vol(), chains;
        extended := PutBytes(block, off, Zeros(needed), d, i, content);
        WritingGrown(v1, chains1, Vol(), chains, lost, d, content, size, Zeros(needed)[..extended]);
        GrownTrans(v0, chains0, v1, chains1, Vol(), chains, lost, d);
        GrownCapacity(v1, chains1, Vol(), chains, lost, d);
        assert Zeros(needed)[..extended] == Zeros(extended);
        WritingZeros(v1, chains1, Vol(), chains, lost, d, content, extended);
      } else {
        assert content + Zeros(0) == content;
      }
    }

    /** Zero-fills the file in slot d up to the descriptor's offset, or as far as the disk allows. */
    method FillGap(f: nat, d: nat) returns (ok: bool, extended: nat)
      requires Session() && f < MAX_DESCRIPTORS && fds[f].inUse && d == fds[f].dirIndex
      requires chains[d] != [] && fds[f].offset > dir[d].filesize
      modifies this`chains, fat, dir, fds, disk.image
      ensures Session() && GapFilled(old(Vol()), old(chains), Vol(), chains, lost, d, f)
      ensures ok == (old(fds[f].offset) <= old(Capacity(Vol(), chains, d)))
      ensures extended == dir[d].filesize - old(dir[d].filesize)
      ensures !ok ==> Saved()
    {
      hide Inv, GrowthStep, InData, ZeroExtended, GapFilled;
      ghost var v0, chains0 := Vol(), chains;
      HandleSlot(v0, chains0, lost, f);
      InvBounds(v0, chains0, lost, d, f);
      var needed := fds[f].offset - dir[d].filesize;
      extended := AppendZeros(d, dir[d].filesize, needed);
      ghost var v := Vol();
      if extended < needed {
        fds[f] := fds[f].(offset := dir[d].filesize + extended);
        dir[d] := dir[d].(filesize := fds[f].offset);
        WriteMetadataToDisk();
        ok := false;
        GapFinish(v0, chains0, v, chains, lost, d, f, extended, disk.image[..], Vol());
      } else {
        dir[d] := dir[d].(filesize := dir[d].filesize + needed);
        ok := true;
        GapFinish(v0, chains0, v, chains, lost, d, f, extended, v.blocks, Vol());
      }
    }

    /** Gives the file in slot d a first block if it has none. */
    method EnsureFirstBlock(d: nat) returns (ok: bool)
      requires Session() && d < MAX_FILES && dir[d].inUse
      modifies this`chains, fat, dir
      ensures Session()
      ensures ok == (old(Capacity(Vol(), chains, d)) > 0)
      ensures if ok then Started(old(Vol()), old(chains), Vol(), chains, lost, d)
              else Vol() == old(Vol()) && chains == old(chains)
    {
      hide Inv, GrowthStep;
      ghost var v, c := Vol(), chains;
      ChainAt(v, c, lost, d);
      GrownStart(v, c, lost, d);
      ok := true;
      if dir[d].firstBlock == FAT_EOF {
        var first := AllocateFreeBlock();
        if first == FAT_FREE {
          assert FreeBlocks(fat[..]) == {};
          assert Vol() == v;
          return false;
        }
        assert first in FreeBlocks(v.fat);
        dir[d] := dir[d].(firstBlock := first);
        dir[d] := dir[d].(filesize := 0);
        chains := chains[d := [first]];
        StartBlock(v, c, lost, d, first, Vol(), chains);
      }
    }

    /** Finds the block of offset `o` and copies as much of `data` from there as the disk has room for. */
    method PutAtOffset(d: nat, o: nat, data: seq<byte>) returns (r: nat)
      requires Session() && d < MAX_FILES && dir[d].inUse && data != []
      requires chains[d] != [] && o <= dir[d].filesize
      modifies this`chains, fat, disk.image
      ensures Session() && r <= |data|
      ensures Writing(old(Vol()), old(chains), Vol(), chains, lost, d,
                      old(View(disk.image[..], chains[d], dir[d].filesize)), o, data[..r])
      ensures r == Min(|data|, old(Capacity(Vol(), chains, d)) - o)
      ensures |chains[d]| == Max(old(|chains[d]|), BlocksFor(o + r))
    {
      hide Inv, GrowthStep, Writing, InData;
      ghost var v0, chains0 := Vol(), chains;
      GrownStart(v0, chains0, lost, d);
      SizeBound(v0, chains0, lost, d);
      WritingStart(v0, chains0, lost, d, dir[d].filesize, o);
      GrownCapacity(v0, chains0, v0, chains0, lost, d);
      ghost var content := View(v0.blocks, chains0[d], dir[d].filesize);
      var block, off, i := Locate(d, o);
      GrownCapacity(v0, chains0, Vol(), chains, lost, d);
      r := 0;
      if block == FAT_EOF {
        assert data[..0] == [];
      } else {
        GrownView(v0, chains0, Vol(), chains, lost, d, dir[d].filesize);
        ghost var v1, chains1 := Vol(), chains;
        r := PutBytes(block, off, data, d, i, content);
        WritingTrans(v0, chains0, v1, chains1, Vol(), chains, lost, d, content, o, data[..r]);
        WritingGrown(v1, chains1, Vol(), chains, lost, d, content, o, data[..r]);
        GrownCapacity(v1, chains1, Vol(), chains, lost, d);
      }
    }

    /** Writes the caller's bytes at the descriptor's offset, which is not past the end. */
    method WriteData(f: nat, d: nat, data: seq<byte>) returns (r: nat)
      requires Session() && f < MAX_DESCRIPTORS && fds[f].inUse && d == fds[f].dirIndex && data != []
      requires chains[d] != [] && fds[f].offset <= dir[d].filesize
      modifies this`chains, fat, dir, fds, disk.image
      ensures Session() && DataWritten(old(Vol()), old(chains), Vol(), chains, lost, d, f, data, r) && Saved()
    {
      hide Inv, GrowthStep, InData, Writing, DataWritten;
      ghost var v0, chains0 := Vol(), chains;
      HandleSlot(v0, chains0, lost, f);
      InvBounds(v0, chains0, lost, d, f);
      InvReadable(v0, chains0, lost);
      r := PutAtOffset(d, fds[f].offset, data);
      ghost var v := Vol();
      fds[f] := fds[f].(offset := fds[f].offset + r);
      if fds[f].offset > dir[d].filesize {
        dir[d] := dir[d].(filesize := fds[f].offset);
      }
      WriteMetadataToDisk();
      InvShape(v, chains, lost);
      DataFinish(v0, chains0, v, chains, lost, d, f, data, r, disk.image[..], Vol());
    }

    /** Writes `data` at the descriptor's offset and returns how many bytes fitted. */
    method FsWrite(fildes: int, data: seq<byte>) returns (r: int)
      requires Valid() && |data| < 0x1_0000_0000
      modifies this`chains, fat, dir, fds, disk.image
      ensures Valid()
      ensures !mounted ==> r == -1 && chains == old(chains) && unchanged(dir, fds, disk.image)
      ensures mounted ==> (Meaning(), Outcome(r, [])) == WriteStep(old(Meaning()), fildes, data)
      ensures mounted && old(Inside(Vol(), fildes)) ==>
                r == Min(|data|, old(Room(Vol(), chains, fildes))) && (|FreeBlocks(fat[..])| > 0 ==> r == |data|)
      ensures mounted && old(InUse(fildes)) ==>
                OneWritten(old(Vol()), Vol(), fildes)
      ensures mounted && old(InUse(fildes)) && (data == [] || old(Reach(Vol(), chains, fildes)) == 0) ==>
                r == 0 && Vol() == old(Vol())
      ensures mounted && old(InUse(fildes)) && data != [] && old(Reach(Vol(), chains, fildes)) > 0 ==>
                Saved() && WriteMoves(old(Vol()), Vol(), fildes, old(Reach(Vol(), chains, fildes)), |data|, r)
      ensures mounted && old(LowOrFull(chains)) ==> LowOrFull(chains)
    {
      hide Inv, WriteStep, LowOrFull, Room, Reach, Inside, Recorded, OneWritten, WriteMoves;
      if mounted {
        HandleFile(Vol(), chains, lost, fildes);
        InvReadable(Vol(), chains, lost);
        WriteFails(Abs(Vol(), chains), fildes, data);
        NotInside(Vol(), fildes);
      }
      if !mounted || fildes < 0 || fildes >= MAX_DESCRIPTORS || !fds[fildes].inUse {
        return -1;
      }
      ghost var v0, chains0 := Vol(), chains;
      r := WriteOpen(fildes, data);
      InvReadable(Vol(), chains, lost);
      WriteBound(v0, chains0, Vol(), chains, fildes, data, r);
    }

    /** The same through a descriptor that is in use. */
    method WriteOpen(f: nat, data: seq<byte>) returns (r: nat)
      requires Session() && InUse(f) && |data| < 0x1_0000_0000
      modifies this`chains, fat, dir, fds, disk.image
      ensures Session() && (Meaning(), Outcome(r, [])) == WriteStep(old(Meaning()), f, data)
      ensures OneWritten(old(Vol()), Vol(), f)
      ensures data == [] || old(Reach(Vol(), chains, f)) == 0 ==> r == 0 && Vol() == old(Vol())
      ensures data != [] && old(Reach(Vol(), chains, f)) > 0 ==>
                Saved() && WriteMoves(old(Vol()), Vol(), f, old(Reach(Vol(), chains, f)), |data|, r)
      ensures old(LowOrFull(chains)) ==> LowOrFull(chains)
    {
      hide Inv, GrowthStep, GapFilled, DataWritten, Prepared, WriteStep, LowOrFull, Recorded, WriteMoves, View, Files, Handles;
      HandleFile(Vol(), chains, lost, f);
      InvReadable(Vol(), chains, lost);
      var d := fds[f].dirIndex;
      ghost var v0, chains0 := Vol(), chains;
      if |data| == 0 {
        WriteNothing(v0, chains0, lost, d, f, data);
        return 0;
      }
      SizeBound(v0, chains0, lost, d);
      var ok := EnsureFirstBlock(d);
      if !ok {
        WriteNothing(v0, chains0, lost, d, f, data);
        return 0;
      }
      ghost var v1, chains1 := Vol(), chains;
      StartedFacts(v0, chains0, v1, chains1, lost, d);
      if fds[f].offset > dir[d].filesize {
        var filled, extended := FillGap(f, d);
        if !filled {
          GapFacts(v1, chains1, Vol(), chains, lost, d, f);
          WriteInGap(v0, chains0, v1, chains1, Vol(), chains, lost, d, f, data);
          InvReadable(Vol(), chains, lost);
          InGapTables(v0, chains0, v1, chains1, Vol(), chains, lost, d, f, |data|);
          return extended;
        }
        PreparedAfterGap(v0, chains0, v1, chains1, Vol(), chains, lost, d, f);
      } else {
        PreparedWithoutGap(v0, chains0, v1, chains1, lost, d, f);
      }
      ghost var v2, chains2 := Vol(), chains;
      PreparedFacts(v0, chains0, v2, chains2, lost, d, f);
      r := WriteData(f, d, data);
      WriteAfterGap(v0, chains0, v2, chains2, Vol(), chains, lost, d, f, data, r);
      InvReadable(Vol(), chains, lost);
      AfterGapTables(v0, chains0, v2, chains2, Vol(), chains, lost, d, f, data, r);
    }

    // -------------------------------------------------------------- reading and seeking

    /** Reads up to `left` bytes of a block from `off` on. */
    method ReadPiece(block: uint32, off: nat, left: nat) returns (piece: seq<byte>)
      requires disk.active && block < disk.image.Length && off < BLOCK_SIZE
      ensures |piece| == Min(BLOCK_SIZE - off, left) && piece == disk.image[block][off..off + |piece|]
    {
      var r, blockBuf := disk.BlockRead(block);
      assert r == 0;
      var chunk := BLOCK_SIZE - off;
      if chunk > left {
        chunk := left;
      }
      piece := blockBuf[off..off + chunk];
    }

    /** Copies `toRead` bytes of the file in slot d from offset o, one block at a time. */
    method CopyOut(d: nat, o: nat, toRead: nat) returns (buf: seq<byte>)
      requires Session() && d < MAX_FILES && dir[d].inUse && o < dir[d].filesize && o + toRead <= dir[d].filesize
      ensures InData(chains[d]) && dir[d].filesize <= |chains[d]| * BLOCK_SIZE
      ensures buf == View(disk.image[..], chains[d], dir[d].filesize)[o..o + toRead]
    {
      hide Inv, View, IsChain;
      ChainAt(Vol(), chains, lost, d);
      ghost var c, size := chains[d], dir[d].filesize;
      ghost var view := View(disk.image[..], c, size);
      var block, offset, i := Walk(dir[d].firstBlock, o, c);
      assert block != FAT_EOF;  // the offset is inside the file, so the walk cannot run off the chain
      buf := [];
      while |buf| < toRead
        invariant |buf| <= toRead && i * BLOCK_SIZE + offset == o + |buf|
        invariant (o + |buf|) / BLOCK_SIZE < |c| ==> block == c[(o + |buf|) / BLOCK_SIZE]
        invariant buf == view[o..o + |buf|]
        decreases toRead - |buf|
      {
        ghost var pos := o + |buf|;
        var piece := ReadPiece(block, offset % BLOCK_SIZE, toRead - |buf|);
        Advance(i, offset, |piece|);
        ViewMore(disk.image[..], c, size, o, pos, |piece|);
        buf := buf + piece;
        offset := offset + |piece|;
        if offset % BLOCK_SIZE == 0 {
          block := FollowLink(block, dir[d].firstBlock, c, pos / BLOCK_SIZE);
          if block == FAT_EOF {
            break;
          }
        }
      }
    }

    method FsRead(fildes: int, nbyte: nat) returns (r: int, buf: seq<byte>)
      requires Valid()
      modifies fds
      ensures Valid()
      ensures !mounted ==> r == -1 && unchanged(fds)
      ensures mounted ==> (Meaning(), Outcome(r, buf)) == ReadStep(old(Meaning()), fildes, nbyte)
      ensures r == -1 <==> !mounted || !old(InUse(fildes))
      ensures r == -1 ==> fds[..] == old(fds[..])
      ensures r >= 0 ==> fds[fildes].offset == old(fds[fildes].offset) + r &&
                         fds[..] == old(fds[..])[fildes := old(fds[fildes]).(offset := fds[fildes].offset)]
      ensures r >= 0 ==> |buf| == r && fds[fildes].dirIndex < MAX_FILES &&
                         r == Max(Min(nbyte, dir[fds[fildes].dirIndex].filesize - old(fds[fildes].offset)), 0)
    {
      hide View, Files, Handles;
      if mounted {
        HandleFile(Vol(), chains, lost, fildes);
      }
      if !mounted || fildes < 0 || fildes >= MAX_DESCRIPTORS || !fds[fildes].inUse {
        return -1, [];
      }
      var d, o := fds[fildes].dirIndex, fds[fildes].offset;
      var remaining := (dir[d].filesize - o) % 0x1_0000_0000;
      var toRead := if nbyte > remaining then remaining else nbyte;
      if dir[d].firstBlock == FAT_EOF || o >= dir[d].filesize {
        assert chains[d] == [] ==> dir[d].filesize == 0;
        return 0, [];
      }
      buf := ReadOn(fildes, d, toRead);
      r := |buf|;
    }

    /** Reads bytes that the file has at descriptor f's offset, and moves the offset past them. */
    method ReadOn(f: nat, d: nat, toRead: nat) returns (buf: seq<byte>)
      requires Session() && f < MAX_DESCRIPTORS && fds[f].inUse && d == fds[f].dirIndex
      requires d < MAX_FILES && fds[f].offset < dir[d].filesize && fds[f].offset + toRead <= dir[d].filesize
      modifies fds
      ensures Session() && |buf| == toRead
      ensures (Meaning(), Outcome(toRead, buf)) == ReadStep(old(Meaning()), f, toRead)
      ensures fds[..] == old(fds[..])[f := old(fds[f]).(offset := old(fds[f].offset) + toRead)]
      ensures InData(chains[d]) && dir[d].filesize <= |chains[d]| * BLOCK_SIZE
      ensures buf == View(disk.image[..], chains[d], dir[d].filesize)[old(fds[f].offset)..old(fds[f].offset) + toRead]
    {
      hide Inv, View, Files, Handles, IsChain;
      ghost var v := Vol();
      HandleFile(v, chains, lost, f);
      InvBounds(v, chains, lost, d, f);
      var o := fds[f].offset;
      buf := CopyOut(d, o, toRead);
      SeekAbs(v, chains, lost, f, o + |buf|);
      fds[f] := fds[f].(offset := o + |buf|);
      assert Vol() == Sought(v, f, o + |buf|);
    }


    method FsLseek(fildes: int, offset: int) returns (r: int)
      requires Valid()
      modifies fds
      ensures Valid()
      ensures !mounted ==> r == -1 && unchanged(fds)
      ensures mounted ==> (Meaning(), Outcome(r, [])) == LseekStep(old(Meaning()), fildes, offset)
      ensures r == 0 || r == -1
      ensures r == 0 ==> old(InUse(fildes)) && fds[fildes].dirIndex < MAX_FILES &&
                         0 <= offset <= dir[fds[fildes].dirIndex].filesize &&
                         fds[..] == old(fds[..])[fildes := old(fds[fildes]).(offset := offset)]
      ensures r == -1 ==> fds[..] == old(fds[..])
    {
      if mounted {
        HandleFile(Vol(), chains, lost, fildes);
      }
      if !mounted || fildes < 0 || fildes >= MAX_DESCRIPTORS || !fds[fildes].inUse || offset < 0 {
        return -1;
      }
      var d := fds[fildes].dirIndex;
      if offset > dir[d].filesize {
        return -1;
      }
      ghost var v := Vol();
      InvBounds(v, chains, lost, d, fildes);
      SeekAbs(v, chains, lost, fildes, offset);
      fds[fildes] := fds[fildes].(offset := offset);
      assert Vol() == Sought(v, fildes, offset);
      r := 0;
    }

    // -------------------------------------------------------------- directory

    method FindFileInDirectory(name: Name) returns (r: int)
      requires Session()
      ensures if r == -1 then forall i :: 0 <= i < MAX_FILES && dir[i].inUse ==> NameAt(dir[..], i) != name
              else 0 <= r < MAX_FILES && dir[r].inUse && NameAt(dir[..], r) == name
    {
      var i := 0;
      while i < MAX_FILES
        invariant 0 <= i <= MAX_FILES
        invariant forall j :: 0 <= j < i && dir[j].inUse ==> NameAt(dir[..], j) != name
      {
        if dir[i].inUse {
          StoredMatches(Vol(), chains, lost, i, name);
          if StrncmpEqual(dir[i].filename, name + [0], NAME_LENGTH) {
            return i;
          }
        }
        i := i + 1;
      }
      return -1;
    }

    method FindFreeDirectoryEntry() returns (r: int)
      requires Session()
      ensures if r == -1 then forall i :: 0 <= i < MAX_FILES ==> dir[i].inUse
              else 0 <= r < MAX_FILES && !dir[r].inUse
    {
      var i := 0;
      while i < MAX_FILES
        invariant 0 <= i <= MAX_FILES
        invariant forall j :: 0 <= j < i ==> dir[j].inUse
      {
        if !dir[i].inUse {
          return i;
        }
        i := i + 1;
      }
      return -1;
    }

    method FsCreate(name: Name) returns (r: int)
      requires Valid()
      modifies dir
      ensures Valid()
      ensures !mounted ==> r == -1 && unchanged(dir)
      ensures mounted ==> (Meaning(), Outcome(r, [])) == CreateStep(old(Meaning()), name)
      ensures r == 0 || r == -1
      ensures r == -1 ==> dir[..] == old(dir[..])
      ensures r == 0 ==> exists d :: 0 <= d < MAX_FILES && !old(dir[d].inUse) && dir[d].inUse &&
                                     NameAt(dir[..], d) == name && dir[d].filesize == 0 && dir[d].firstBlock == FAT_EOF &&
                                     dir[..] == old(dir[..])[d := dir[d]]
    {
      if !mounted {
        return -1;
      }
      ghost var v := Vol();
      if |name| >= NAME_LENGTH {
        CreateFails(v, chains, lost, name);
        return -1;
      }
      var found := FindFileInDirectory(name);
      if found >= 0 {
        assert NameAt(v.dir, found) == name;
        CreateFails(v, chains, lost, name);
        return -1;
      }
      var d := FindFreeDirectoryEntry();
      if d < 0 {
        CreateFails(v, chains, lost, name);
        return -1;
      }
      CreateAbs(v, chains, lost, d, name);
      dir[d] := DirEntry(PaddedName(name), 0, FAT_EOF, true);
      assert Vol() == Created(v, d, name);
      assert !v.dir[d].inUse && dir[d].inUse && NameAt(dir[..], d) == name;
      r := 0;
    }

    method FsOpen(name: Name) returns (r: int)
      requires Valid()
      modifies fds
      ensures Valid()
      ensures !mounted ==> r == -1 && unchanged(fds)
      ensures mounted ==> (Meaning(), Outcome(r, [])) == OpenStep(old(Meaning()), name)
      ensures r < 0 ==> r == -1 && fds[..] == old(fds[..])
      ensures r >= 0 ==> r < MAX_DESCRIPTORS && !old(fds[r].inUse) && fds[r].inUse && fds[r].offset == 0 &&
                         fds[r].dirIndex < MAX_FILES && dir[fds[r].dirIndex].inUse &&
                         NameAt(dir[..], fds[r].dirIndex) == name && fds[..] == old(fds[..])[r := fds[r]]
    {
      if !mounted {
        return -1;
      }
      ghost var v := Vol();
      var d := FindFileInDirectory(name);
      if d < 0 {
        OpenFails(v, chains, lost, name);
        return -1;
      }
      var i := 0;
      while i < MAX_DESCRIPTORS
        invariant 0 <= i <= MAX_DESCRIPTORS
        invariant forall j :: 0 <= j < i ==> fds[j].inUse
        invariant Vol() == v
      {
        if !fds[i].inUse {
          OpenAbs(v, chains, lost, i, d, name);
          fds[i] := FileDescriptor(true, d, 0);
          assert Vol() == OpenedAt(v, i, d);
          return i;
        }
        i := i + 1;
      }
      OpenFails(v, chains, lost, name);
      return -1;
    }

    /** Closing does not ask whether anything is mounted. */
    method FsClose(fildes: int) returns (r: int)
      requires Valid()
      modifies fds
      ensures Valid()
      ensures old(0 <= fildes < MAX_DESCRIPTORS && fds[fildes].inUse)
              ==> r == 0 && fds[..] == old(fds[..])[fildes := old(fds[fildes]).(inUse := false)]
      ensures !old(0 <= fildes < MAX_DESCRIPTORS && fds[fildes].inUse) ==> r == -1 && fds[..] == old(fds[..])
      ensures mounted ==> (Meaning(), Outcome(r, [])) == CloseStep(old(Meaning()), fildes)
    {
      if mounted {
        HandleFile(Vol(), chains, lost, fildes);
      }
      if fildes < 0 || fildes >= MAX_DESCRIPTORS || !fds[fildes].inUse {
        return -1;
      }
      if mounted {
        CloseAbs(Vol(), chains, lost, fildes);
      }
      fds[fildes] := fds[fildes].(inUse := false);
      assert mounted ==> Vol() == old(ClosedAt(Vol(), fildes));
      r := 0;
    }

    // -------------------------------------------------------------- cutting

    /** Frees what the links reach from position m of the chain in slot d. */
    method FreeRest(start: uint32, ghost d: nat, ghost m: nat)
      requires Session() && d < MAX_FILES && dir[d].inUse && m <= |chains[d]|
      requires start == if m < |chains[d]| then chains[d][m] else FAT_EOF
      modifies fat
      ensures InData(old(chains[d])) && fat[..] == Cleared(old(fat[..]), chains[d][m..])
    {
      ChainAt(Vol(), chains, lost, d);
      ChainClosed(fat[..], dir[d].firstBlock, chains[d], m);
      FreeBlockChain(start, Elements(chains[d][m..]));
      FreedTable(old(fat[..]), fat[..], dir[d].firstBlock, chains[d], m);
    }

    /** Frees the whole chain in slot d. */
    method FreeAll(d: nat)
      requires Session() && d < MAX_FILES && dir[d].inUse
      modifies fat
      ensures InData(chains[d]) && fat[..] == CutTable(old(fat[..]), chains[d], 0)
    {
      ChainAt(Vol(), chains, lost, d);
      FreeRest(dir[d].firstBlock, d, 0);
    }

    /** Keeps the blocks that `len` bytes reach into and frees the rest of the chain in slot d. */
    method CutChain(d: nat, len: nat)
      requires Session() && d < MAX_FILES && dir[d].inUse
      modifies fat
      ensures InData(chains[d]) && fat[..] == CutTable(old(fat[..]), chains[d], Kept(chains[d], len))
    {
      ghost var table, c := fat[..], chains[d];
      ChainAt(Vol(), chains, lost, d);
      var block, rest, i := Walk(dir[d].firstBlock, len, c);
      if block != FAT_EOF {
        assert fat[..][c[i]] == Link(c, i);
        FreeRest(fat[block], d, i + 1);
        fat[block] := FAT_EOF;
        assert fat[..] == CutTable(table, c, i + 1);
      } else {
        UncutTable(table, dir[d].firstBlock, c);
      }
    }

    method FsTruncate(fildes: int, length: int) returns (r: int)
      requires Valid()
      modifies this`chains, fat, dir, fds, disk.image
      ensures Valid()
      ensures !mounted ==> r == -1 && chains == old(chains) && unchanged(dir, fds, disk.image)
      ensures mounted ==> (Meaning(), Outcome(r, [])) == TruncateStep(old(Meaning()), fildes, length)
      ensures r == 0 || r == -1
      ensures r == -1 ==> fds[..] == old(fds[..]) && dir[..] == old(dir[..])
      ensures r == 0 ==> old(InUse(fildes)) && fds[fildes].dirIndex < MAX_FILES &&
                         CutTables(old(fds[..]), old(dir[..]), fildes, length % 0x1_0000_0000) &&
                         fds[fildes].offset <= dir[fds[fildes].dirIndex].filesize
      ensures r == 0 ==> Saved() && CutChains(old(chains), fds[fildes].dirIndex, length % 0x1_0000_0000, old(|FreeBlocks(fat[..])|))
      ensures mounted && old(Low(chains)) ==> Low(chains)
    {
      hide Inv, Recorded, SameOutside, CutTable, View, Files, Handles;
      if mounted {
        HandleFile(Vol(), chains, lost, fildes);
        InvReadable(Vol(), chains, lost);
      }
      if !mounted || fildes < 0 || fildes >= MAX_DESCRIPTORS || !fds[fildes].inUse || length < 0 {
        return -1;
      }
      var d, len := fds[fildes].dirIndex, length % 0x1_0000_0000;
      if len > dir[d].filesize {
        return -1;
      }
      CutFile(fildes, length, len);
      r := 0;
    }

    /** Descriptor f's offset has been moved back to `len` if it was behind, the file's size is `len`,
        and the rest of the two tables is as it was. */
    ghost predicate CutTables(before: seq<FileDescriptor>, entries: seq<DirEntry>, f: nat, len: nat)
      reads fds, dir
    {
      f < |before| == fds.Length && before[f].dirIndex < |entries| == dir.Length && len < 0x1_0000_0000 &&
      fds[f].offset == (if before[f].offset < len then before[f].offset else len) &&
      fds[..] == before[f := before[f].(offset := fds[f].offset)] &&
      dir[..] == entries[before[f].dirIndex := entries[before[f].dirIndex].(filesize := len)]
    }

    /** The chain of slot d has lost all but its first len / 4096 + 1 blocks, and just those are free. */
    ghost predicate CutChains(before: Chains, d: nat, len: nat, free: nat)
      reads this, fat
    {
      fat != null && d < |before| && chains == before[d := before[d][..Min(|before[d]|, len / BLOCK_SIZE + 1)]] &&
      |FreeBlocks(fat[..])| + |chains[d]| == free + |before[d]|
    }

    /** The disk records the tables as they are in memory. */
    ghost predicate Saved()
      reads this, disk, fat, dir, disk.image
    {
      fat != null && Recorded(disk.image[..], fat[..], dir[..])
    }

    /** Losing the memory after a call that saved loses no file, as long as all chains are low:
        the disk holds an image that mounts to the files of the session. */
    lemma SavedIsDurable()
      requires Session() && Saved() && Low(chains)
      ensures ImageOk(disk.image[..], chains) && ImageFiles(disk.image[..], chains) == Meaning().files
    {
      hide Inv, Recorded;
      InvReadable(Vol(), chains, lost);
      SaveImage(Vol(), chains, lost, disk.image[..]);
    }

    /** Cuts the file of descriptor f to a length that it has. */
    method CutFile(f: nat, ghost length: nat, len: nat)
      requires Session() && f < MAX_DESCRIPTORS && fds[f].inUse && len == length % 0x1_0000_0000
      requires fds[f].dirIndex < MAX_FILES && len <= dir[fds[f].dirIndex].filesize
      modifies this`chains, fat, dir, fds, disk.image
      ensures Session() && (old(Low(chains)) ==> Low(chains))
      ensures (Meaning(), Outcome(0, [])) == TruncateStep(old(Meaning()), f, length)
      ensures CutTables(old(fds[..]), old(dir[..]), f, len) && Saved()
      ensures CutChains(old(chains), fds[f].dirIndex, len, old(|FreeBlocks(fat[..])|))
    {
      hide Inv, Recorded, SameOutside, CutTable, View, Files, Handles, Low, TruncateStep;
      ghost var v := Vol();
      HandleSlot(v, chains, lost, f);
      var d := fds[f].dirIndex;
      ghost var c := chains[d];
      CutChain(d, len);
      dir[d] := dir[d].(filesize := len);
      if fds[f].offset > len {
        fds[f] := fds[f].(offset := len);
      }
      WriteMetadataToDisk();
      TruncateAbs(v, chains, lost, f, length, disk.image[..]);
      chains := chains[d := c[..Kept(c, len)]];
      assert Vol() == Truncated(v, old(chains), d, f, len, disk.image[..]);
      InvReadable(Vol(), chains, lost);
    }

    method FsDelete(name: Name) returns (r: int)
      requires Valid()
      modifies this`chains, fat, dir, disk.image
      ensures Valid()
      ensures !mounted ==> r == -1 && chains == old(chains) && unchanged(dir, disk.image)
      ensures mounted ==> (Meaning(), Outcome(r, [])) == DeleteStep(old(Meaning()), name)
      ensures r == 0 || r == -1
      ensures r == -1 ==> dir[..] == old(dir[..])
      ensures r == 0 ==> (forall i :: 0 <= i < MAX_FILES && dir[i].inUse ==> NameAt(dir[..], i) != name) && Saved()
      ensures r == 0 ==> exists d :: 0 <= d < MAX_FILES && old(dir[d].inUse) && old(NameAt(dir[..], d)) == name &&
                                     Removed(old(dir[..]), d) && d < |old(chains)| &&
                                     |FreeBlocks(fat[..])| == old(|FreeBlocks(fat[..])|) + |old(chains)[d]|
      ensures mounted && old(Low(chains)) ==> Low(chains)
    {
      hide Inv, Recorded, SameOutside, CutTable, View, Files, Handles, Low, IsChain, Distinct, Apart;
      if !mounted || |name| >= NAME_LENGTH {
        return -1;
      }
      ghost var v := Vol();
      InvReadable(v, chains, lost);
      NameKnown(v, chains, lost, name);
      var d := FindFileInDirectory(name);
      if d < 0 {
        return -1;
      }
      OpenNames(v, chains, lost, d);
      var i := 0;
      while i < MAX_DESCRIPTORS
        invariant 0 <= i <= MAX_DESCRIPTORS
        invariant forall h :: 0 <= h < i ==> !(fds[h].inUse && fds[h].dirIndex == d)
      {
        if fds[i].inUse && fds[i].dirIndex == d {
          return -1;
        }
        i := i + 1;
      }
      RemoveFile(d);
      r := 0;
    }

    /** Slot d is unused, and every other slot is as it was. */
    ghost predicate Removed(entries: seq<DirEntry>, d: nat)
      reads dir
    {
      d < |entries| == dir.Length && !dir[d].inUse && forall i :: 0 <= i < dir.Length && i != d ==> dir[i] == entries[i]
    }

    /** Frees the blocks of a file that nobody has open and clears its slot. */
    method RemoveFile(d: nat)
      requires Session() && d < MAX_FILES && dir[d].inUse && Unopened(fds[..], d)
      requires |NameAt(dir[..], d)| < NAME_LENGTH
      modifies this`chains, fat, dir, disk.image
      ensures Session() && (old(Low(chains)) ==> Low(chains))
      ensures (Meaning(), Outcome(0, [])) == DeleteStep(old(Meaning()), old(NameAt(dir[..], d)))
      ensures Removed(old(dir[..]), d) && Saved()
      ensures |chains| == |old(chains)| == MAX_FILES
      ensures |FreeBlocks(fat[..])| == old(|FreeBlocks(fat[..])|) + |old(chains)[d]|
    {
      hide Inv, Recorded, SameOutside, CutTable, View, Files, Handles, Low, Unopened;
      ghost var v := Vol();
      InvReadable(v, chains, lost);
      OpenNames(v, chains, lost, d);
      FreeAll(d);
      dir[d] := EmptyEntry;
      WriteMetadataToDisk();
      DeleteAbs(v, chains, lost, d, disk.image[..]);
      chains := chains[d := []];
      assert Vol() == Deleted(v, old(chains), d, disk.image[..]);
      assert Meaning().free == |FreeBlocks(fat[..])|;
      InvReadable(Vol(), chains, lost);
    }

    // -------------------------------------------------------------- formatting and mounting

    /** Formats the disk. If a session is open this fails, but only after the disk was zeroed. */
    method MakeFs() returns (r: int)
      requires Valid()
      modifies this`superblock, this`fat, disk, disk.image, dir
      ensures Valid() && mounted == old(mounted)
      ensures r == if mounted then -1 else 0
      ensures r == 0 ==> ImageOk(disk.image[..], NoChains()) && ImageFiles(disk.image[..], NoChains()) == map[]
      ensures r == -1 ==> Vol() == old(Vol()).(blocks := disk.image[..]) &&
                          forall b :: 0 <= b < DISK_BLOCKS ==> disk.image[b] == ZeroBlock
    {
      hide Inv, Recorded, ImageOk, ImageFiles;
      ghost var v := if mounted then Vol() else Volume([], [], [], []);
      disk.MakeDisk();
      var status := disk.OpenDisk();
      if status < 0 {
        InvBlocks(v, chains, lost, disk.image[..]);
        assert Vol() == v.(blocks := disk.image[..]);
        return -1;
      }
      superblock := Superblock(MAGIC, BLOCK_SIZE, DISK_BLOCKS, 1, 2, 3, 1, 4);
      fat := new uint32[DISK_BLOCKS](_ => FAT_FREE);
      ClearDirectory();
      WriteMetadataToDisk();
      FormattedImage(disk.image[..], fat[..], dir[..]);
      fat := null;
      var closed := disk.CloseDisk();
      r := 0;
    }

    method ClearDirectory()
      requires dir.Length == MAX_FILES
      modifies dir
      ensures forall i :: 0 <= i < MAX_FILES ==> dir[i] == EmptyEntry
    {
      forall i | 0 <= i < MAX_FILES {
        dir[i] := EmptyEntry;
      }
    }

    /** Reads the saved part of the table and the directory into memory. */
    method LoadTables()
      requires disk.active && disk.image.Length == DISK_BLOCKS && dir.Length == MAX_FILES
      requires superblock == Standard && fat != null && fat.Length == DISK_BLOCKS
      modifies fat, dir
      ensures fat[..] == SavedFat(disk.image[..]) + old(fat[..])[SAVED_ENTRIES..]
      ensures dir[..] == SavedDirectory(disk.image[..])
    {
      ghost var image, tail := disk.image[..], fat[..][SAVED_ENTRIES..];
      var i := 0;
      while i < superblock.fatBlockCount
        invariant 0 <= i <= 2
        invariant fat[..][SAVED_ENTRIES..] == tail
        invariant i >= 1 ==> fat[..][..ENTRIES_PER_BLOCK] == DecodeFat(image[1])
        invariant i >= 2 ==> fat[..][ENTRIES_PER_BLOCK..SAVED_ENTRIES] == DecodeFat(image[2])
      {
        var r, block := disk.BlockRead(superblock.fatStart + i);
        assert r == 0;
        CopyWords(i * ENTRIES_PER_BLOCK, DecodeFat(block));
        i := i + 1;
      }
      var r, block := disk.BlockRead(superblock.dirStart);
      assert r == 0;
      var entries := DecodeDirectory(block);
      forall k | 0 <= k < MAX_FILES {
        dir[k] := entries[k];
      }
    }

    method CopyWords(base: nat, words: seq<uint32>)
      requires fat != null && base + |words| <= fat.Length
      modifies fat
      ensures fat[..] == old(fat[..])[..base] + words + old(fat[..])[base + |words|..]
    {
      forall k | 0 <= k < |words| {
        fat[base + k] := words[k];
      }
    }

    /** Mounts an image that formatting or an earlier session left; what the unsaved part of the
        table holds afterwards is not determined. */
    method MountFs(ghost saved: Chains) returns (r: int)
      requires Valid()
      requires !mounted && DecodeSuperblock(disk.image[0]).magic == MAGIC ==> ImageOk(disk.image[..], saved)
      modifies this, disk, dir, fds
      ensures Valid() && disk.image[..] == old(disk.image[..])
      ensures old(mounted) ==> r == -1 && mounted && Vol() == old(Vol()) && chains == old(chains)
      ensures !old(mounted) ==> r == (if DecodeSuperblock(disk.image[0]).magic == MAGIC then 0 else -1) &&
                                mounted == (r == 0)
      ensures r == 0 ==> fresh(fat) && chains == saved && lost == LostIn(fat[..]) &&
                         fat[..SAVED_ENTRIES] == SavedFat(disk.image[..]) &&
                         Vol() == Loaded(disk.image[..], fat[SAVED_ENTRIES..]) &&
                         Meaning().files == ImageFiles(disk.image[..], saved) &&
                         forall h :: 0 <= h < MAX_DESCRIPTORS ==> Meaning().handles[h] == AbstractFs.Closed
    {
      hide Inv, ImageOk, ImageFiles, Loaded, SavedFat;
      if mounted {
        return -1;
      }
      var status := disk.OpenDisk();
      var read, block := disk.BlockRead(0);
      superblock := DecodeSuperblock(block);
      if superblock.magic != MAGIC {
        var closed := disk.CloseDisk();
        return -1;
      }
      ImageMagic(disk.image[..], saved);
      LoadVolume(saved);
      r := 0;
    }

    /** The part of mounting after the superblock has been checked. */
    method LoadVolume(ghost saved: Chains)
      requires disk.image.Length == DISK_BLOCKS && dir.Length == MAX_FILES && fds.Length == MAX_DESCRIPTORS
      requires disk.active && !mounted && superblock == Standard && ImageOk(disk.image[..], saved)
      modifies this`fat, this`mounted, this`chains, this`lost, dir, fds
      ensures Session() && fresh(fat) && chains == saved && lost == LostIn(fat[..])
      ensures fat[..SAVED_ENTRIES] == SavedFat(disk.image[..])
      ensures Vol() == Loaded(disk.image[..], fat[SAVED_ENTRIES..])
      ensures Meaning().files == ImageFiles(disk.image[..], saved)
      ensures forall h :: 0 <= h < MAX_DESCRIPTORS ==> Meaning().handles[h] == AbstractFs.Closed
    {
      hide Inv, ImageOk, ImageFiles, Files, SavedDirectory;
      fat := new uint32[superblock.totalBlocks];
      LoadTables();
      mounted := true;
      ClearDescriptors();
      ghost var tail := fat[SAVED_ENTRIES..];
      assert fat[..SAVED_ENTRIES] == SavedFat(disk.image[..]);
      assert Vol() == Loaded(disk.image[..], tail);
      MountAnyTail(disk.image[..], saved, tail);
      chains := saved;
      lost := LostIn(fat[..]);
      InvReadable(Vol(), chains, lost);
    }

    method ClearDescriptors()
      requires fds.Length == MAX_DESCRIPTORS
      modifies fds
      ensures fds[..] == NoDescriptors()
    {
      forall h | 0 <= h < MAX_DESCRIPTORS {
        fds[h] := FileDescriptor(false, 0, 0);
      }
    }

    /** Saves the metadata and ends the session. With low chains, everything is in the image. */
    method UmountFs() returns (r: int)
      requires Valid()
      modifies this`fat, this`mounted, disk, disk.image
      ensures Valid() && !mounted
      ensures r == if old(mounted) then 0 else -1
      ensures old(mounted) ==> Recorded(disk.image[..], old(Vol().fat), dir[..]) &&
                               SameOutside(old(disk.image[..]), disk.image[..], [])
      ensures old(mounted && Low(chains)) ==>
                ImageOk(disk.image[..], chains) && ImageFiles(disk.image[..], chains) == old(Meaning().files)
    {
      hide Inv, Recorded;
      if !mounted {
        return -1;
      }
      ghost var v := Vol();
      InvReadable(v, chains, lost);
      WriteMetadataToDisk();
      if Low(chains) {
        SaveImage(v, chains, lost, disk.image[..]);
      }
      fat := null;
      mounted := false;
      var closed := disk.CloseDisk();
      r := 0;
    }

    // -------------------------------------------------------------- whole sessions

    /** Any one call of a session does what the abstract step says. */
    method Perform(op: Op) returns (out: Outcome)
      requires Session() && (op.Write? ==> |op.data| < 0x1_0000_0000)
      modifies this`chains, fat, dir, fds, disk.image
      ensures Session()
      ensures (Meaning(), out) == Step(old(Meaning()), op)
      ensures old(Low(chains)) && |Owned(chains)| <= SAVED_ENTRIES - DATA_START ==> Low(chains)
    {
      hide Inv;
      var r, buf := 0, [];
      match op {
        case Create(name) => r := FsCreate(name);
        case Delete(name) => r := FsDelete(name);
        case Open(name) => r := FsOpen(name);
        case Close(fildes) => r := FsClose(fildes);
        case Read(fildes, nbyte) => r, buf := FsRead(fildes, nbyte);
        case Write(fildes, data) => r := FsWrite(fildes, data);
        case Lseek(fildes, offset) => r := FsLseek(fildes, offset);
        case Truncate(fildes, length) => r := FsTruncate(fildes, length);
      }
      out := Outcome(r, buf);
    }

    /** Any sequence of calls does what the abstract run says; and if the files never use more
        blocks than the saved part of the table has, every chain is still in that part. */
    method RunSession(ops: seq<Op>) returns (outs: seq<Outcome>)
      requires Session() && Writable(ops)
      modifies this`chains, fat, dir, fds, disk.image
      ensures Session()
      ensures (Meaning(), outs) == Run(old(Meaning()), ops)
      ensures old(Low(chains)) && AlwaysWithin(old(Meaning()), ops, SAVED_BLOCKS) ==> Low(chains)
      decreases |ops|
    {
      hide Inv;
      if ops == [] {
        return [];
      }
      StepBounded(Meaning(), ops[0]);
      var first := Perform(ops[0]);
      OwnedBlocks(Vol(), chains, lost);
      var rest := RunSession(ops[1..]);
      outs := [first] + rest;
    }

    /** A session that stays within the saved part of the table survives unmounting and mounting,
        and leaves a session of the same kind. */
    method RunAndRemount(ops: seq<Op>) returns (outs: seq<Outcome>)
      requires Session() && Writable(ops)
      requires Low(chains) && AlwaysWithin(Meaning(), ops, SAVED_BLOCKS)
      modifies this, fat, dir, fds, disk, disk.image
      ensures Session() && Low(chains) && fresh(fat) && outs == old(Run(Meaning(), ops).1)
      ensures Meaning().files == old(Run(Meaning(), ops).0.files)
      ensures Meaning().handles == AllClosed()
    {
      hide Inv, ImageOk, ImageFiles, Loaded, Abs, Recorded, SameOutside, Run, AlwaysWithin;
      outs := RunSession(ops);
      ghost var saved := chains;
      var r := UmountFs();
      ImageMagic(disk.image[..], saved);
      r := MountFs(saved);
      assert Meaning().handles == AllClosed();
    }

    /** Sessions in a row, each ended by unmounting and mounting again. Whatever memory holds in the
        unsaved part of the table at each mount, the results and the files are those of a disk that
        is as large as the saved part, as long as no write overflows that. */
    method RunSessions(sessions: seq<seq<Op>>) returns (outs: seq<seq<Outcome>>)
      requires Session() && Low(chains) && Meaning().handles == AllClosed()
      requires forall k :: 0 <= k < |sessions| ==> Writable(sessions[k])
      requires Savable(Meaning().files) && AllSessionsFit(Meaning().files, sessions)
      modifies this, fat, dir, fds, disk, disk.image
      ensures Session() && Low(chains) && Meaning().handles == AllClosed()
      ensures (Meaning().files, outs) == RunAll(old(Meaning().files), sessions)
      decreases |sessions|
    {
      hide Inv;
      if sessions == [] {
        return [];
      }
      InvReadable(Vol(), chains, lost);
      ghost var spare := SpareBlocks(Vol(), chains, lost);
      RunConserves(Reopened(Meaning().files), sessions[0]);
      RunRoomier(Reopened(Meaning().files), sessions[0], spare);
      var first := RunAndRemount(sessions[0]);
      var rest := RunSessions(sessions[1..]);
      outs := [first] + rest;
    }

    /** From any disk: format it, mount it, and every sequence of calls behaves like the map of
        files that starts empty. What memory holds in the unsaved part of the table at the mount
        decides only how many blocks start out free. */
    method FormatMountAndRun(ops: seq<Op>) returns (outs: seq<Outcome>, ghost free: nat)
      requires Valid() && !mounted && Writable(ops)
      modifies this, fat, dir, fds, disk, disk.image
      ensures Session() && SAVED_BLOCKS <= free <= DISK_BLOCKS - DATA_START
      ensures (Meaning(), outs) == Run(Empty(free), ops)
      ensures AlwaysWithin(Empty(free), ops, SAVED_BLOCKS) ==> Low(chains)
    {
      hide Inv;
      free := FormatAndMount();
      outs := RunSession(ops);
    }

    /** A session that leaves the saved part: one file of one block too many, provided that memory
        did not hold garbage in every single unsaved entry. */
    method LeaveSavedPart() returns (outs: seq<Outcome>, ghost free: nat)
      requires Valid() && !mounted
      modifies this, fat, dir, fds, disk, disk.image
      ensures Session() && SAVED_BLOCKS <= free <= DISK_BLOCKS - DATA_START
      ensures free > SAVED_BLOCKS ==> !Low(chains)
    {
      hide Inv, AlwaysWithin;
      var name: Name := [97];
      outs, free := FormatMountAndRun(BigFile(name));
      if free > SAVED_BLOCKS {
        BigFileUses(name, free);
        InvReadable(Vol(), chains, lost);
        ManyBlocksAreNotLow(Vol(), chains, lost);
      }
    }

    method FormatAndMount() returns (ghost free: nat)
      requires Valid() && !mounted
      modifies this, fat, dir, fds, disk, disk.image
      ensures Session() && Low(chains) && fresh(fat) && Meaning() == Empty(free)
      ensures SAVED_BLOCKS <= free <= DISK_BLOCKS - DATA_START
    {
      hide Inv, ImageOk, ImageFiles, Loaded, Abs;
      var r := MakeFs();
      ImageMagic(disk.image[..], NoChains());
      r := MountFs(NoChains());
      free := |FreeBlocks(fat[..])|;
      InvReadable(Vol(), chains, lost);
      FreshlyMounted(Vol(), lost);
    }

    /** From any disk: format it, and any number of sessions with unmounting and mounting between
        them keeps every file, as long as the sessions fit the saved part of the table. */
    method FormatAndRunSessions(sessions: seq<seq<Op>>) returns (outs: seq<seq<Outcome>>)
      requires Valid() && !mounted && forall k :: 0 <= k < |sessions| ==> Writable(sessions[k])
      requires AllSessionsFit(map[], sessions)
      modifies this, fat, dir, fds, disk, disk.image
      ensures Session() && Low(chains) && Meaning().handles == AllClosed()
      ensures (Meaning().files, outs) == RunAll(map[], sessions)
    {
      hide Inv;
      ghost var free := FormatAndMount();
      outs := RunSessions(sessions);
    }
  }

  /** The lengths of all writes fit 32 bits. */
  predicate Writable(ops: seq<Op>) {
    forall k :: 0 <= k < |ops| && ops[k].Write? ==> |ops[k].data| < 0x1_0000_0000
  }
}
