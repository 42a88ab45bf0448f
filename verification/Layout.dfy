/** How the superblock, the allocation table and the directory are laid out in blocks. */
module Layout {
  import opened Bytes
  import opened Volumes

  const MAGIC: uint32 := 0x1234_5678
  const WORD: int := 4
  const ENTRIES_PER_BLOCK: int := 1024
  const ENTRY_SIZE: int := 44
  const SUPERBLOCK_SIZE: int := 32

  datatype Superblock = Superblock(
    magic: uint32, blockSize: uint32, totalBlocks: uint32, fatStart: uint32,
    fatBlockCount: uint32, dirStart: uint32, dirBlockCount: uint32, dataStart: uint32)

  /** The superblock that formatting writes. */
  const Standard := Superblock(MAGIC, BLOCK_SIZE, DISK_BLOCKS, 1, 2, 3, 1, DATA_START)

  function Fields(sb: Superblock): (f: seq<uint32>)
    ensures |f| == 8
  {
    [sb.magic, sb.blockSize, sb.totalBlocks, sb.fatStart,
     sb.fatBlockCount, sb.dirStart, sb.dirBlockCount, sb.dataStart]
  }

  function EncodeSuperblock(sb: Superblock): Block {
    seq(BLOCK_SIZE, k requires 0 <= k < BLOCK_SIZE =>
      if k < SUPERBLOCK_SIZE then WordByte(Fields(sb)[k / WORD], k % WORD) else 0)
  }

  function WordAt(b: Block, k: nat): uint32
    requires k + WORD <= BLOCK_SIZE
  {
    WordOf(b[k], b[k + 1], b[k + 2], b[k + 3])
  }

  function LoadFields(b: Block): (f: seq<uint32>)
    ensures |f| == 8
  {
    seq(8, k requires 0 <= k < 8 => WordAt(b, k * WORD))
  }

  function DecodeSuperblock(b: Block): Superblock {
    var f := LoadFields(b);
    Superblock(f[0], f[1], f[2], f[3], f[4], f[5], f[6], f[7])
  }

  /** The block-sized slice of the table that starts at entry `base`. */
  function EncodeFat(fat: seq<uint32>, base: nat): Block
    requires base + ENTRIES_PER_BLOCK <= |fat|
  {
    seq(BLOCK_SIZE, k requires 0 <= k < BLOCK_SIZE => WordByte(fat[base + k / WORD], k % WORD))
  }

  function DecodeFat(b: Block): (fat: seq<uint32>)
    ensures |fat| == ENTRIES_PER_BLOCK
  {
    seq(ENTRIES_PER_BLOCK, k requires 0 <= k < ENTRIES_PER_BLOCK => WordAt(b, k * WORD))
  }

  /** Byte k of a directory entry in memory: name, size, first block, in-use flag, padding. */
  function EntryByte(e: DirEntry, k: nat): byte
    requires k < ENTRY_SIZE
  {
    if k < 32 then e.filename[k]
    else if k < 36 then WordByte(e.filesize, k - 32)
    else if k < 40 then WordByte(e.firstBlock, k - 36)
    else if k == 40 && e.inUse then 1
    else 0
  }

  function EncodeDirectory(dir: seq<DirEntry>): Block
    requires |dir| == MAX_FILES
  {
    seq(BLOCK_SIZE, k requires 0 <= k < BLOCK_SIZE =>
      if k < MAX_FILES * ENTRY_SIZE then EntryByte(dir[k / ENTRY_SIZE], k % ENTRY_SIZE) else 0)
  }

  function DecodeEntry(b: Block, k: nat): DirEntry
    requires k + ENTRY_SIZE <= BLOCK_SIZE
  {
    DirEntry(b[k..k + NAME_LENGTH], WordAt(b, k + 32), WordAt(b, k + 36), b[k + 40] != 0)
  }

  function DecodeDirectory(b: Block): (dir: seq<DirEntry>)
    ensures |dir| == MAX_FILES
  {
    seq(MAX_FILES, i requires 0 <= i < MAX_FILES => DecodeEntry(b, i * ENTRY_SIZE))
  }

  lemma WordStored(b: Block, k: nat, w: uint32)
    requires k + WORD <= BLOCK_SIZE
    requires forall j :: 0 <= j < WORD ==> b[k + j] == WordByte(w, j)
    ensures WordAt(b, k) == w
  {
    assert b[k] == b[k + 0] == WordByte(w, 0) && b[k + 1] == WordByte(w, 1);
    assert b[k + 2] == WordByte(w, 2) && b[k + 3] == WordByte(w, 3);
    WordRoundTrip(w);
  }

  lemma FieldStored(sb: Superblock, f: nat)
    requires f < 8
    ensures WordAt(EncodeSuperblock(sb), f * WORD) == Fields(sb)[f]
  {
    var b := EncodeSuperblock(sb);
    forall j | 0 <= j < WORD ensures b[f * WORD + j] == WordByte(Fields(sb)[f], j) {
      assert (f * WORD + j) / WORD == f && (f * WORD + j) % WORD == j;
    }
    WordStored(b, f * WORD, Fields(sb)[f]);
  }

  lemma FieldsRoundTrip(sb: Superblock)
    ensures LoadFields(EncodeSuperblock(sb)) == Fields(sb)
  {
    forall f | 0 <= f < 8 ensures LoadFields(EncodeSuperblock(sb))[f] == Fields(sb)[f] {
      FieldStored(sb, f);
    }
  }

  lemma SuperblockRoundTrip(sb: Superblock)
    ensures DecodeSuperblock(EncodeSuperblock(sb)) == sb
  {
    FieldsRoundTrip(sb);
  }

  lemma FatStored(fat: seq<uint32>, base: nat, i: nat)
    requires base + ENTRIES_PER_BLOCK <= |fat| && i < ENTRIES_PER_BLOCK
    ensures WordAt(EncodeFat(fat, base), i * WORD) == fat[base + i]
  {
    var b, w := EncodeFat(fat, base), fat[base + i];
    forall j | 0 <= j < WORD ensures b[i * WORD + j] == WordByte(w, j) {
      assert (i * WORD + j) / WORD == i && (i * WORD + j) % WORD == j;
    }
    WordStored(b, i * WORD, w);
  }

  lemma FatRoundTrip(fat: seq<uint32>, base: nat)
    requires base + ENTRIES_PER_BLOCK <= |fat|
    ensures DecodeFat(EncodeFat(fat, base)) == fat[base..base + ENTRIES_PER_BLOCK]
  {
    var r := DecodeFat(EncodeFat(fat, base));
    forall i | 0 <= i < ENTRIES_PER_BLOCK ensures r[i] == fat[base..base + ENTRIES_PER_BLOCK][i] {
      FatStored(fat, base, i);
    }
  }

  lemma EntryRoundTrip(b: Block, k: nat, e: DirEntry)
    requires k + ENTRY_SIZE <= BLOCK_SIZE
    requires forall j :: 0 <= j < ENTRY_SIZE ==> b[k + j] == EntryByte(e, j)
    ensures DecodeEntry(b, k) == e
  {
    assert b[k..k + NAME_LENGTH] == e.filename by {
      forall j | 0 <= j < NAME_LENGTH ensures b[k..k + NAME_LENGTH][j] == e.filename[j] {
        assert b[k + j] == EntryByte(e, j);
      }
    }
    assert b[k + 32] == EntryByte(e, 32) && b[k + 33] == EntryByte(e, 33);
    assert b[k + 34] == EntryByte(e, 34) && b[k + 35] == EntryByte(e, 35);
    assert b[k + 36] == EntryByte(e, 36) && b[k + 37] == EntryByte(e, 37);
    assert b[k + 38] == EntryByte(e, 38) && b[k + 39] == EntryByte(e, 39);
    assert b[k + 40] == EntryByte(e, 40);
    WordRoundTrip(e.filesize);
    WordRoundTrip(e.firstBlock);
  }

  lemma DirectoryRoundTrip(dir: seq<DirEntry>)
    requires |dir| == MAX_FILES
    ensures DecodeDirectory(EncodeDirectory(dir)) == dir
  {
    var b := EncodeDirectory(dir);
    forall i | 0 <= i < MAX_FILES ensures DecodeDirectory(b)[i] == dir[i] {
      forall j | 0 <= j < ENTRY_SIZE ensures b[i * ENTRY_SIZE + j] == EntryByte(dir[i], j) {
        assert (i * ENTRY_SIZE + j) / ENTRY_SIZE == i && (i * ENTRY_SIZE + j) % ENTRY_SIZE == j;
      }
      EntryRoundTrip(b, i * ENTRY_SIZE, dir[i]);
    }
  }

  /** The metadata blocks of a disk image record this table and directory. */
  ghost predicate Recorded(blocks: seq<Block>, fat: seq<uint32>, dir: seq<DirEntry>) {
    |blocks| == |fat| == DISK_BLOCKS && |dir| == MAX_FILES &&
    blocks[0] == EncodeSuperblock(Standard) &&
    blocks[1] == EncodeFat(fat, 0) && blocks[2] == EncodeFat(fat, ENTRIES_PER_BLOCK) &&
    blocks[3] == EncodeDirectory(dir)
  }

  /** The part of the table that mounting reads back. */
  function SavedFat(blocks: seq<Block>): (fat: seq<uint32>)
    requires |blocks| == DISK_BLOCKS
    ensures |fat| == SAVED_ENTRIES
  {
    DecodeFat(blocks[1]) + DecodeFat(blocks[2])
  }

  function SavedDirectory(blocks: seq<Block>): (dir: seq<DirEntry>)
    requires |blocks| == DISK_BLOCKS
    ensures |dir| == MAX_FILES
  {
    DecodeDirectory(blocks[3])
  }

  /** Metadata written to disk is read back unchanged, as far as it was written. */
  lemma RecordedRoundTrip(blocks: seq<Block>, fat: seq<uint32>, dir: seq<DirEntry>)
    requires Recorded(blocks, fat, dir)
    ensures |blocks| == |fat| == DISK_BLOCKS && |dir| == MAX_FILES
    ensures DecodeSuperblock(blocks[0]) == Standard
    ensures SavedFat(blocks) == fat[..SAVED_ENTRIES]
    ensures SavedDirectory(blocks) == dir
  {
    SuperblockRoundTrip(Standard);
    FatRoundTrip(fat, 0);
    FatRoundTrip(fat, ENTRIES_PER_BLOCK);
    assert fat[0..ENTRIES_PER_BLOCK] + fat[ENTRIES_PER_BLOCK..2 * ENTRIES_PER_BLOCK] == fat[..SAVED_ENTRIES];
    DirectoryRoundTrip(dir);
  }
}
