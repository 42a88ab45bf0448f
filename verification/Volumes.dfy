/** The in-memory and on-disk state of a mounted volume as plain values, the block
    chains that live in the file allocation table, and what every operation keeps. */
module Volumes {
  import opened Bytes
  import opened Collections

  const FAT_FREE: uint32 := 0
  const FAT_EOF: uint32 := 0xFFFF_FFFF
  const DISK_BLOCKS: int := 8192
  const DATA_START: int := 4
  const SAVED_ENTRIES: int := 2048
  const MAX_FILES: int := 64
  const MAX_DESCRIPTORS: int := 32
  const NAME_LENGTH: int := 32

  type NameBuffer = s: seq<byte> | |s| == NAME_LENGTH witness seq(NAME_LENGTH, _ => 0)

  datatype DirEntry = DirEntry(filename: NameBuffer, filesize: uint32, firstBlock: uint32, inUse: bool)

  datatype FileDescriptor = FileDescriptor(inUse: bool, dirIndex: uint32, offset: uint32)

  datatype Volume = Volume(
    fat: seq<uint32>, dir: seq<DirEntry>, fds: seq<FileDescriptor>, blocks: seq<Block>)

  /** The blocks of the file in each directory slot, in file order. */
  type Chains = seq<seq<nat>>

  const EmptyEntry := DirEntry(Zeros(NAME_LENGTH), 0, 0, false)

  ghost predicate Shape(v: Volume, chains: Chains) {
    |v.fat| == DISK_BLOCKS && |v.blocks| == DISK_BLOCKS &&
    |v.dir| == MAX_FILES && |v.fds| == MAX_DESCRIPTORS && |chains| == MAX_FILES
  }

  ghost predicate InData(c: seq<nat>) {
    forall p :: 0 <= p < |c| ==> DATA_START <= c[p] < DISK_BLOCKS
  }

  ghost predicate Apart(c: seq<nat>, d: seq<nat>) {
    forall p, q :: 0 <= p < |c| && 0 <= q < |d| ==> c[p] != d[q]
  }

  /** The entry that must follow position p of a chain. */
  function Link(c: seq<nat>, p: nat): nat
    requires p < |c|
  {
    if p + 1 < |c| then c[p + 1] else FAT_EOF
  }

  /** `c` is the chain that starts at `first`: linked in order and ended by FAT_EOF. */
  ghost predicate IsChain(fat: seq<uint32>, first: uint32, c: seq<nat>)
    requires |fat| == DISK_BLOCKS && InData(c)
  {
    first == (if c == [] then FAT_EOF else c[0]) &&
    forall p {:trigger fat[c[p]]} :: 0 <= p < |c| ==> fat[c[p]] == Link(c, p)
  }

  ghost function Elements(c: seq<nat>): set<nat> {
    set b | b in c
  }

  ghost function Owned(chains: Chains): set<nat> {
    set i, p | 0 <= i < |chains| && 0 <= p < |chains[i]| :: chains[i][p]
  }

  /** Chains are in range, acyclic, pairwise disjoint, and end in FAT_EOF. */
  ghost predicate ChainsInv(fat: seq<uint32>, dir: seq<DirEntry>, chains: Chains)
    requires |fat| == DISK_BLOCKS && |dir| == |chains|
  {
    (forall i :: 0 <= i < |chains| ==> InData(chains[i]) && Distinct(chains[i])) &&
    (forall i, j :: 0 <= i < j < |chains| ==> Apart(chains[i], chains[j])) &&
    (forall i :: 0 <= i < |chains| ==>
       if dir[i].inUse then IsChain(fat, dir[i].firstBlock, chains[i]) else chains[i] == [])
  }

  /** A data block is free exactly when no chain owns it and it was not lost at mount. */
  ghost predicate Accounted(fat: seq<uint32>, owned: set<nat>, lost: set<nat>)
    requires |fat| == DISK_BLOCKS
  {
    (forall b :: b in lost ==> SAVED_ENTRIES <= b < DISK_BLOCKS && b !in owned) &&
    (forall b :: DATA_START <= b < DISK_BLOCKS ==>
       (fat[b] == FAT_FREE <==> b !in owned && b !in lost))
  }

  ghost predicate SizesInv(dir: seq<DirEntry>, chains: Chains)
    requires |dir| == |chains|
  {
    forall i :: 0 <= i < |dir| && dir[i].inUse ==> dir[i].filesize <= |chains[i]| * BLOCK_SIZE
  }

  ghost predicate StoredName(buf: NameBuffer) {
    buf[NAME_LENGTH - 1] == 0 && buf == CString(buf) + Zeros(NAME_LENGTH - |CString(buf)|)
  }

  function NameAt(dir: seq<DirEntry>, i: nat): seq<byte>
    requires i < |dir|
  {
    CString(dir[i].filename)
  }

  ghost predicate NamesInv(dir: seq<DirEntry>) {
    (forall i :: 0 <= i < |dir| && dir[i].inUse ==> StoredName(dir[i].filename)) &&
    (forall i, j :: 0 <= i < j < |dir| && dir[i].inUse && dir[j].inUse ==> NameAt(dir, i) != NameAt(dir, j))
  }

  ghost predicate DescriptorsInv(fds: seq<FileDescriptor>, dir: seq<DirEntry>) {
    forall f :: 0 <= f < |fds| && fds[f].inUse ==>
      fds[f].dirIndex < |dir| && dir[fds[f].dirIndex].inUse &&
      fds[f].offset <= DISK_BLOCKS * BLOCK_SIZE
  }

  /** What every operation of a session keeps. */
  ghost predicate Inv(v: Volume, chains: Chains, lost: set<nat>) {
    Shape(v, chains) &&
    ChainsInv(v.fat, v.dir, chains) &&
    Accounted(v.fat, Owned(chains), lost) &&
    SizesInv(v.dir, chains) &&
    NamesInv(v.dir) &&
    DescriptorsInv(v.fds, v.dir)
  }

  /** The part of the invariant that makes a chain's blocks readable. */
  lemma InvShape(v: Volume, chains: Chains, lost: set<nat>)
    requires Inv(v, chains, lost)
    ensures Shape(v, chains) && forall i :: 0 <= i < MAX_FILES ==> InData(chains[i])
  {
  }

  /** The invariant does not look inside the blocks. */
  lemma InvBlocks(v: Volume, chains: Chains, lost: set<nat>, blocks': seq<Block>)
    requires Inv(v, chains, lost) && |blocks'| == DISK_BLOCKS
    ensures Inv(v.(blocks := blocks'), chains, lost)
  {
  }

  lemma ChainAt(v: Volume, chains: Chains, lost: set<nat>, d: nat)
    requires Inv(v, chains, lost) && d < MAX_FILES && v.dir[d].inUse
    ensures Shape(v, chains) && InData(chains[d]) && IsChain(v.fat, v.dir[d].firstBlock, chains[d])
    ensures v.dir[d].filesize <= |chains[d]| * BLOCK_SIZE
  {
  }

  /** The first n bytes of a chain's blocks. */
  ghost function View(blocks: seq<Block>, c: seq<nat>, n: nat): (s: seq<byte>)
    requires InData(c) && |blocks| == DISK_BLOCKS && n <= |c| * BLOCK_SIZE
    ensures |s| == n
  {
    seq(n, j requires 0 <= j < n => blocks[c[j / BLOCK_SIZE]][j % BLOCK_SIZE])
  }

  ghost function FreeBlocks(fat: seq<uint32>): set<nat> {
    set b: nat | DATA_START <= b < |fat| && fat[b] == FAT_FREE
  }

  // ---------------------------------------------------------------- content

  /** Concatenation of a chain's blocks, the textbook reading of a file. */
  ghost function Concatenated(blocks: seq<Block>, c: seq<nat>): (s: seq<byte>)
    requires InData(c) && |blocks| == DISK_BLOCKS
    ensures |s| == |c| * BLOCK_SIZE
  {
    if c == [] then [] else Concatenated(blocks, c[..|c| - 1]) + blocks[c[|c| - 1]]
  }

  lemma {:induction false} ConcatenatedAt(blocks: seq<Block>, c: seq<nat>, j: nat)
    requires InData(c) && |blocks| == DISK_BLOCKS && j < |c| * BLOCK_SIZE
    ensures Concatenated(blocks, c)[j] == blocks[c[j / BLOCK_SIZE]][j % BLOCK_SIZE]
  {
    var front := c[..|c| - 1];
    if j < |front| * BLOCK_SIZE { ConcatenatedAt(blocks, front, j); }
  }

  /** A view is a prefix of the concatenated chain. */
  lemma {:induction false} ViewIsConcatenation(blocks: seq<Block>, c: seq<nat>, n: nat)
    requires InData(c) && |blocks| == DISK_BLOCKS && n <= |c| * BLOCK_SIZE
    ensures View(blocks, c, n) == Concatenated(blocks, c)[..n]
  {
    forall j | 0 <= j < n ensures View(blocks, c, n)[j] == Concatenated(blocks, c)[j] {
      ConcatenatedAt(blocks, c, j);
    }
  }

  /** Patching one block of a distinct chain overlays the view. */
  lemma PatchView(blocks: seq<Block>, c: seq<nat>, n: nat, i: nat, off: nat, d: seq<byte>)
    requires InData(c) && Distinct(c) && |blocks| == DISK_BLOCKS && n <= |c| * BLOCK_SIZE
    requires i < |c| && off + |d| <= BLOCK_SIZE && i * BLOCK_SIZE + off <= n
    ensures var o := i * BLOCK_SIZE + off;
            View(blocks[c[i] := Patch(blocks[c[i]], off, d)], c, Max(n, o + |d|))
            == Overlay(View(blocks, c, n), o, d)
  {
  }

  /** A stretch of a view that stays inside one block is a slice of that block. */
  lemma ViewSlice(blocks: seq<Block>, c: seq<nat>, n: nat, pos: nat, len: nat)
    requires InData(c) && |blocks| == DISK_BLOCKS && pos + len <= n <= |c| * BLOCK_SIZE
    requires pos % BLOCK_SIZE + len <= BLOCK_SIZE && len > 0
    ensures View(blocks, c, n)[pos..pos + len]
            == blocks[c[pos / BLOCK_SIZE]][pos % BLOCK_SIZE..pos % BLOCK_SIZE + len]
  {
    var b, slice := blocks[c[pos / BLOCK_SIZE]], View(blocks, c, n)[pos..pos + len];
    forall j | 0 <= j < len
      ensures slice[j] == b[pos % BLOCK_SIZE + j]
    {
      assert (pos + j) / BLOCK_SIZE == pos / BLOCK_SIZE && (pos + j) % BLOCK_SIZE == pos % BLOCK_SIZE + j;
    }
  }

  lemma ViewMore(blocks: seq<Block>, c: seq<nat>, n: nat, o: nat, pos: nat, len: nat)
    requires InData(c) && |blocks| == DISK_BLOCKS && o <= pos && pos + len <= n <= |c| * BLOCK_SIZE
    requires pos % BLOCK_SIZE + len <= BLOCK_SIZE && len > 0
    ensures pos / BLOCK_SIZE < |c|
    ensures View(blocks, c, n)[o..pos] + blocks[c[pos / BLOCK_SIZE]][pos % BLOCK_SIZE..pos % BLOCK_SIZE + len]
            == View(blocks, c, n)[o..pos + len]
  {
    hide View;
    ViewSlice(blocks, c, n, pos, len);
    SliceMore(View(blocks, c, n), o, pos, pos + len);
  }

  /** Views depend only on the blocks of the chain. */
  lemma SameView(blocks: seq<Block>, blocks': seq<Block>, c: seq<nat>, c': seq<nat>, n: nat)
    requires InData(c) && InData(c') && |blocks| == |blocks'| == DISK_BLOCKS
    requires n <= |c| * BLOCK_SIZE && |c| <= |c'| && c == c'[..|c|]
    requires forall p :: 0 <= p < |c| ==> blocks[c[p]] == blocks'[c[p]]
    ensures View(blocks, c, n) == View(blocks', c', n)
  {
    forall j | 0 <= j < n
      ensures View(blocks, c, n)[j] == View(blocks', c', n)[j]
    {
      assert c'[j / BLOCK_SIZE] == c'[..|c|][j / BLOCK_SIZE];
    }
  }

  lemma ViewPrefix(blocks: seq<Block>, c: seq<nat>, c': seq<nat>, n: nat, m: nat)
    requires InData(c) && |blocks| == DISK_BLOCKS && n <= m <= |c| * BLOCK_SIZE
    requires |c'| <= |c| && c' == c[..|c'|] && n <= |c'| * BLOCK_SIZE
    ensures InData(c') && View(blocks, c', n) == View(blocks, c, m)[..n]
  {
    assert forall p :: 0 <= p < |c'| ==> c'[p] == c[p];
    forall j | 0 <= j < n
      ensures View(blocks, c', n)[j] == View(blocks, c, m)[j]
    {
      assert c'[j / BLOCK_SIZE] == c[j / BLOCK_SIZE];
    }
  }

  // ---------------------------------------------------------------- growing a chain

  /** The table after block b is allocated and linked behind chain c. */
  function Linked(fat: seq<uint32>, c: seq<nat>, b: nat): seq<uint32>
    requires InData(c) && |fat| == DISK_BLOCKS && DATA_START <= b < DISK_BLOCKS
  {
    if c == [] then fat[b := FAT_EOF] else fat[b := FAT_EOF][c[|c| - 1] := b]
  }

  lemma OwnedExtend(chains: Chains, d: nat, b: nat)
    requires d < |chains|
    ensures Owned(chains[d := chains[d] + [b]]) == Owned(chains) + {b}
  {
    var after := chains[d := chains[d] + [b]];
    forall x | x in Owned(chains) + {b} ensures x in Owned(after) {
      if x == b {
        assert after[d][|chains[d]|] == b;
      } else {
        var i, p :| 0 <= i < |chains| && 0 <= p < |chains[i]| && chains[i][p] == x;
        assert after[i][p] == x;
      }
    }
    forall x | x in Owned(after) ensures x in Owned(chains) + {b} {
      var i, p :| 0 <= i < |after| && 0 <= p < |after[i]| && after[i][p] == x;
      if i == d && p == |chains[d]| {
        assert x == b;
      } else {
        assert chains[i][p] == x;
      }
    }
  }

  lemma ChainFrame(fat: seq<uint32>, fat': seq<uint32>, first: uint32, c: seq<nat>)
    requires |fat| == |fat'| == DISK_BLOCKS && InData(c) && IsChain(fat, first, c)
    requires forall p :: 0 <= p < |c| ==> fat'[c[p]] == fat[c[p]]
    ensures IsChain(fat', first, c)
  {
  }

  lemma ChainGrown(fat: seq<uint32>, first: uint32, c: seq<nat>, b: nat)
    requires |fat| == DISK_BLOCKS && InData(c) && Distinct(c) && IsChain(fat, first, c)
    requires DATA_START <= b < DISK_BLOCKS && b !in c
    ensures InData(c + [b]) && Distinct(c + [b])
    ensures IsChain(Linked(fat, c, b), if c == [] then b else first, c + [b])
  {
    forall p | 0 <= p <= |c| ensures Linked(fat, c, b)[(c + [b])[p]] == Link(c + [b], p) {
      assert p < |c| ==> c[p] != b && fat[c[p]] == Link(c, p);
    }
  }

  lemma SlotsApart(chains: Chains, i: nat, j: nat)
    requires i < |chains| && j < |chains| && i != j
    requires forall i, j :: 0 <= i < j < |chains| ==> Apart(chains[i], chains[j])
    ensures Apart(chains[i], chains[j])
  {
    assert if i < j then Apart(chains[i], chains[j]) else Apart(chains[j], chains[i]);
  }

  lemma NotOwned(chains: Chains, i: nat, b: nat)
    requires i < |chains| && b !in Owned(chains)
    ensures b !in chains[i]
  {
    forall p | 0 <= p < |chains[i]| ensures chains[i][p] != b {
      assert chains[i][p] in Owned(chains);
    }
  }

  lemma ApartGrown(c: seq<nat>, e: seq<nat>, b: nat)
    requires Apart(c, e) && b !in e
    ensures Apart(c + [b], e) && Apart(e, c + [b])
  {
  }

  lemma ExtendChains(fat: seq<uint32>, dir: seq<DirEntry>, chains: Chains, d: nat, b: nat, dir': seq<DirEntry>)
    requires |fat| == DISK_BLOCKS && |dir| == |dir'| == |chains| && d < |chains|
    requires ChainsInv(fat, dir, chains) && dir[d].inUse
    requires DATA_START <= b < DISK_BLOCKS && b !in Owned(chains)
    requires dir'[d].inUse && dir'[d].firstBlock == if chains[d] == [] then b else dir[d].firstBlock
    requires forall i :: 0 <= i < |dir| && i != d ==> dir'[i] == dir[i]
    ensures ChainsInv(Linked(fat, chains[d], b), dir', chains[d := chains[d] + [b]])
  {
    var c, after := chains[d], chains[d := chains[d] + [b]];
    var fat' := Linked(fat, c, b);
    forall i | 0 <= i < |after|
      ensures InData(after[i]) && Distinct(after[i])
      ensures if dir'[i].inUse then IsChain(fat', dir'[i].firstBlock, after[i]) else after[i] == []
    {
      NotOwned(chains, i, b);
      if i == d {
        ChainGrown(fat, dir[d].firstBlock, c, b);
      } else if dir[i].inUse {
        SlotsApart(chains, i, d);
        ChainFrame(fat, fat', dir[i].firstBlock, chains[i]);
      }
    }
    forall i, j | 0 <= i < j < |after| ensures Apart(after[i], after[j]) {
      SlotsApart(chains, i, j);
      NotOwned(chains, i, b);
      NotOwned(chains, j, b);
      if i == d || j == d {
        ApartGrown(c, chains[if i == d then j else i], b);
      }
    }
  }

  lemma AccountedGrow(fat: seq<uint32>, fat': seq<uint32>, owned: set<nat>, lost: set<nat>, b: nat)
    requires |fat| == |fat'| == DISK_BLOCKS && Accounted(fat, owned, lost)
    requires DATA_START <= b < DISK_BLOCKS && fat[b] == FAT_FREE
    requires forall x :: 0 <= x < |fat| ==> (fat'[x] == FAT_FREE <==> fat[x] == FAT_FREE && x != b)
    ensures Accounted(fat', owned + {b}, lost)
    ensures |FreeBlocks(fat)| == |FreeBlocks(fat')| + 1
  {
    assert FreeBlocks(fat') == FreeBlocks(fat) - {b};
    assert b in FreeBlocks(fat);
  }

  lemma LinkedFree(fat: seq<uint32>, c: seq<nat>, b: nat)
    requires |fat| == DISK_BLOCKS && InData(c) && DATA_START <= b < DISK_BLOCKS
    requires c != [] ==> fat[c[|c| - 1]] != FAT_FREE
    ensures forall x :: 0 <= x < |fat| ==> (Linked(fat, c, b)[x] == FAT_FREE <==> fat[x] == FAT_FREE && x != b)
  {
  }

  lemma ExtendAccounted(fat: seq<uint32>, dir: seq<DirEntry>, chains: Chains, lost: set<nat>, d: nat, b: nat)
    requires |fat| == DISK_BLOCKS && |dir| == |chains| && d < |chains|
    requires ChainsInv(fat, dir, chains) && Accounted(fat, Owned(chains), lost)
    requires DATA_START <= b < DISK_BLOCKS && fat[b] == FAT_FREE
    ensures Accounted(Linked(fat, chains[d], b), Owned(chains[d := chains[d] + [b]]), lost)
    ensures |FreeBlocks(fat)| == |FreeBlocks(Linked(fat, chains[d], b))| + 1
  {
    var c := chains[d];
    OwnedExtend(chains, d, b);
    if c != [] {
      assert c[|c| - 1] in Owned(chains);
    }
    LinkedFree(fat, c, b);
    AccountedGrow(fat, Linked(fat, c, b), Owned(chains), lost, b);
  }

  // ---------------------------------------------------------------- cutting a chain

  /** The table after every block listed in c is freed. */
  function Cleared(fat: seq<uint32>, c: seq<nat>): (r: seq<uint32>)
    ensures |r| == |fat|
  {
    seq(|fat|, b requires 0 <= b < |fat| => if b in c then FAT_FREE else fat[b])
  }

  /** The table after chain c is cut to its first m blocks. */
  function CutTable(fat: seq<uint32>, c: seq<nat>, m: nat): (r: seq<uint32>)
    requires |fat| == DISK_BLOCKS && InData(c) && m <= |c|
    ensures |r| == |fat|
  {
    var cleared := Cleared(fat, c[m..]);
    if m == 0 then cleared else cleared[c[m - 1] := FAT_EOF]
  }

  lemma OwnedCut(chains: Chains, d: nat, m: nat)
    requires d < |chains| && m <= |chains[d]| && Distinct(chains[d])
    requires forall i, j :: 0 <= i < j < |chains| ==> Apart(chains[i], chains[j])
    ensures Owned(chains[d := chains[d][..m]]) == Owned(chains) - Elements(chains[d][m..])
  {
    var c, after := chains[d], chains[d := chains[d][..m]];
    forall b | b in Owned(after) ensures b in Owned(chains) && b !in c[m..] {
      var i, p :| 0 <= i < |after| && 0 <= p < |after[i]| && after[i][p] == b;
      assert chains[i][p] == b;
      if i != d { SlotsApart(chains, i, d); }
    }
    forall b | b in Owned(chains) && b !in c[m..] ensures b in Owned(after) {
      var i, p :| 0 <= i < |chains| && 0 <= p < |chains[i]| && chains[i][p] == b;
      assert i == d ==> p < m by {
        assert forall q :: m <= q < |c| ==> c[q] in c[m..];
      }
      assert after[i][p] == b;
    }
  }

  lemma CutTableAt(fat: seq<uint32>, c: seq<nat>, m: nat)
    requires |fat| == DISK_BLOCKS && InData(c) && Distinct(c) && m <= |c|
    ensures forall p :: 0 <= p < |c| ==>
              CutTable(fat, c, m)[c[p]] == if p >= m then FAT_FREE else if p == m - 1 then FAT_EOF else fat[c[p]]
    ensures forall b :: 0 <= b < |fat| && b !in c ==> CutTable(fat, c, m)[b] == fat[b]
  {
    forall p | 0 <= p < |c|
      ensures c[p] in c[m..] <==> p >= m
    {
      if p >= m {
        assert c[m..][p - m] == c[p];
      }
    }
  }

  lemma ChainCut(fat: seq<uint32>, first: uint32, c: seq<nat>, m: nat)
    requires |fat| == DISK_BLOCKS && InData(c) && Distinct(c) && m <= |c| && IsChain(fat, first, c)
    requires m > 0 || c == []
    ensures InData(c[..m]) && Distinct(c[..m]) && IsChain(CutTable(fat, c, m), first, c[..m])
  {
    CutTableAt(fat, c, m);
    forall p | 0 <= p < m ensures CutTable(fat, c, m)[c[..m][p]] == Link(c[..m], p) {
      assert fat[c[p]] == Link(c, p);
    }
  }

  lemma CutChains(fat: seq<uint32>, dir: seq<DirEntry>, chains: Chains, d: nat, m: nat, dir': seq<DirEntry>)
    requires |fat| == DISK_BLOCKS && |dir| == |dir'| == |chains| && d < |chains|
    requires ChainsInv(fat, dir, chains) && dir[d].inUse && m <= |chains[d]|
    requires if dir'[d].inUse then dir'[d].firstBlock == dir[d].firstBlock && (m > 0 || chains[d] == []) else m == 0
    requires forall i :: 0 <= i < |dir| && i != d ==> dir'[i] == dir[i]
    ensures ChainsInv(CutTable(fat, chains[d], m), dir', chains[d := chains[d][..m]])
  {
    var c, after := chains[d], chains[d := chains[d][..m]];
    var fat' := CutTable(fat, c, m);
    CutTableAt(fat, c, m);
    forall i | 0 <= i < |after|
      ensures InData(after[i]) && Distinct(after[i])
      ensures if dir'[i].inUse then IsChain(fat', dir'[i].firstBlock, after[i]) else after[i] == []
    {
      if i == d {
        if dir'[i].inUse {
          ChainCut(fat, dir[i].firstBlock, c, m);
        }
      } else if dir[i].inUse {
        SlotsApart(chains, i, d);
        forall p | 0 <= p < |chains[i]| ensures fat'[chains[i][p]] == fat[chains[i][p]] {
          assert chains[i][p] !in c;
        }
        ChainFrame(fat, fat', dir[i].firstBlock, chains[i]);
      }
    }
    forall i, j | 0 <= i < j < |after| ensures Apart(after[i], after[j]) {
      SlotsApart(chains, i, j);
    }
  }

  lemma {:induction false} ElementsCount(c: seq<nat>)
    requires Distinct(c)
    ensures |Elements(c)| == |c|
  {
    if c != [] {
      var front := c[..|c| - 1];
      ElementsCount(front);
      assert c == front + [c[|c| - 1]];
      assert Elements(c) == Elements(front) + {c[|c| - 1]};
      assert c[|c| - 1] !in front;
    }
  }

  lemma FreeBlocksGrow(fat: seq<uint32>, fat': seq<uint32>, freed: seq<nat>)
    requires |fat| == |fat'| && Distinct(freed)
    requires forall b :: b in freed ==> DATA_START <= b < |fat| && fat[b] != FAT_FREE
    requires forall b :: DATA_START <= b < |fat| ==> (fat'[b] == FAT_FREE <==> fat[b] == FAT_FREE || b in freed)
    ensures |FreeBlocks(fat')| == |FreeBlocks(fat)| + |freed|
  {
    assert FreeBlocks(fat') == FreeBlocks(fat) + Elements(freed);
    ElementsCount(freed);
  }

  lemma OwnedAt(chains: Chains, d: nat, b: nat)
    requires d < |chains| && b in chains[d]
    ensures b in Owned(chains)
  {
    var q :| 0 <= q < |chains[d]| && chains[d][q] == b;
  }

  lemma CutFrees(fat: seq<uint32>, c: seq<nat>, m: nat)
    requires |fat| == DISK_BLOCKS && InData(c) && Distinct(c) && m <= |c|
    requires forall p :: 0 <= p < |c| ==> fat[c[p]] != FAT_FREE
    ensures forall b :: 0 <= b < |fat| ==>
              (CutTable(fat, c, m)[b] == FAT_FREE <==> fat[b] == FAT_FREE || b in c[m..])
  {
    CutTableAt(fat, c, m);
    forall b | 0 <= b < |fat|
      ensures CutTable(fat, c, m)[b] == FAT_FREE <==> fat[b] == FAT_FREE || b in c[m..]
    {
      if b in c {
        var q :| 0 <= q < |c| && c[q] == b;
        assert q >= m ==> c[m..][q - m] == b;
      } else {
        assert b !in c[m..];
      }
    }
  }

  lemma AccountedCut(fat: seq<uint32>, fat': seq<uint32>, owned: set<nat>, lost: set<nat>, freed: seq<nat>)
    requires |fat| == |fat'| == DISK_BLOCKS && Accounted(fat, owned, lost)
    requires Distinct(freed) && InData(freed) && Elements(freed) <= owned
    requires forall b :: 0 <= b < |fat| ==> (fat'[b] == FAT_FREE <==> fat[b] == FAT_FREE || b in freed)
    ensures Accounted(fat', owned - Elements(freed), lost)
    ensures |FreeBlocks(fat')| == |FreeBlocks(fat)| + |freed|
  {
    FreeBlocksGrow(fat, fat', freed);
  }

  lemma CutAccounted(fat: seq<uint32>, dir: seq<DirEntry>, chains: Chains, lost: set<nat>, d: nat, m: nat)
    requires |fat| == DISK_BLOCKS && |dir| == |chains| && d < |chains| && m <= |chains[d]|
    requires ChainsInv(fat, dir, chains) && Accounted(fat, Owned(chains), lost)
    ensures var fat' := CutTable(fat, chains[d], m);
            Accounted(fat', Owned(chains[d := chains[d][..m]]), lost) &&
            |FreeBlocks(fat')| == |FreeBlocks(fat)| + |chains[d]| - m
  {
    hide IsChain, Apart;
    var c, fat' := chains[d], CutTable(fat, chains[d], m);
    forall b | b in c ensures fat[b] != FAT_FREE && b in Owned(chains) {
      OwnedAt(chains, d, b);
    }
    CutFrees(fat, c, m);
    OwnedCut(chains, d, m);
    AccountedCut(fat, fat', Owned(chains), lost, c[m..]);
  }

  // ---------------------------------------------------------------- counting blocks

  function TotalLength(chains: Chains): nat {
    if chains == [] then 0 else TotalLength(chains[..|chains| - 1]) + |chains[|chains| - 1]|
  }

  lemma {:induction false} LengthBelowTotal(chains: Chains, d: nat)
    requires d < |chains|
    ensures |chains[d]| <= TotalLength(chains)
  {
    if d < |chains| - 1 {
      LengthBelowTotal(chains[..|chains| - 1], d);
    }
  }

  ghost predicate AllSeparate(chains: Chains) {
    (forall i :: 0 <= i < |chains| ==> Distinct(chains[i])) &&
    (forall i, j :: 0 <= i < j < |chains| ==> Apart(chains[i], chains[j]))
  }

  lemma OwnedSplit(chains: Chains)
    requires chains != []
    ensures Owned(chains) == Owned(chains[..|chains| - 1]) + Elements(chains[|chains| - 1])
  {
    var last := |chains| - 1;
    var front, c := chains[..last], chains[last];
    forall b | b in Owned(chains) ensures b in Owned(front) + Elements(c) {
      var i, p :| 0 <= i < |chains| && 0 <= p < |chains[i]| && chains[i][p] == b;
      if i < last {
        assert front[i][p] == b;
      }
    }
    forall b | b in Owned(front) ensures b in Owned(chains) {
      var i, p :| 0 <= i < |front| && 0 <= p < |front[i]| && front[i][p] == b;
      assert chains[i][p] == b;
    }
    forall b | b in Elements(c) ensures b in Owned(chains) {
      var p :| 0 <= p < |c| && c[p] == b;
      assert chains[last][p] == b;
    }
  }

  lemma {:induction false} OwnedCount(chains: Chains)
    requires AllSeparate(chains)
    ensures |Owned(chains)| == TotalLength(chains)
  {
    if chains == [] {
      assert Owned(chains) == {};
    } else {
      var last := |chains| - 1;
      var front, c := chains[..last], chains[last];
      OwnedCount(front);
      ElementsCount(c);
      OwnedSplit(chains);
      forall b | b in Owned(front) ensures b !in Elements(c) {
        var i, p :| 0 <= i < |front| && 0 <= p < |front[i]| && front[i][p] == b;
        assert Apart(chains[i], chains[last]);
      }
    }
  }

  ghost function Range(lo: nat, hi: nat): (r: set<nat>)
    requires lo <= hi
    ensures |r| == hi - lo
    ensures forall b: nat :: b in r <==> lo <= b < hi
    decreases hi
  {
    if lo == hi then {} else Range(lo, hi - 1) + {hi - 1}
  }

  lemma OwnedInData(fat: seq<uint32>, dir: seq<DirEntry>, chains: Chains)
    requires |fat| == DISK_BLOCKS && |dir| == |chains| && ChainsInv(fat, dir, chains)
    ensures forall b :: b in Owned(chains) ==> DATA_START <= b < DISK_BLOCKS
  {
    forall b | b in Owned(chains) ensures DATA_START <= b < DISK_BLOCKS {
      var i, p :| 0 <= i < |chains| && 0 <= p < |chains[i]| && chains[i][p] == b;
    }
  }

  lemma PartitionSize(free: set<nat>, owned: set<nat>, lost: set<nat>, lo: nat, hi: nat)
    requires lo <= hi && free !! owned && free !! lost && owned !! lost
    requires forall b :: b in free + owned + lost <==> lo <= b < hi
    ensures |free| + |owned| + |lost| == hi - lo
  {
    assert free + owned + lost == Range(lo, hi);
    assert |(free + owned) + lost| == |free + owned| + |lost|;
  }

  lemma AccountedSizes(fat: seq<uint32>, owned: set<nat>, lost: set<nat>)
    requires |fat| == DISK_BLOCKS && Accounted(fat, owned, lost)
    requires forall b :: b in owned ==> DATA_START <= b < DISK_BLOCKS
    ensures |FreeBlocks(fat)| + |owned| + |lost| == DISK_BLOCKS - DATA_START
  {
    PartitionSize(FreeBlocks(fat), owned, lost, DATA_START, DISK_BLOCKS);
  }

  /** Free blocks, blocks in chains and blocks lost at mount always add up to the data area. */
  lemma BlockConservation(v: Volume, chains: Chains, lost: set<nat>)
    requires Inv(v, chains, lost)
    ensures |FreeBlocks(v.fat)| + TotalLength(chains) + |lost| == DISK_BLOCKS - DATA_START
  {
    hide IsChain, Accounted, FreeBlocks, Owned, SizesInv, NamesInv, DescriptorsInv;
    OwnedCount(chains);
    OwnedInData(v.fat, v.dir, chains);
    AccountedSizes(v.fat, Owned(chains), lost);
  }

  /** Every chain lies in the part of the table that is saved on disk. */
  ghost predicate Low(chains: Chains) {
    forall b :: b in Owned(chains) ==> b < SAVED_ENTRIES
  }

  /** First-fit allocation stays in the saved part while fewer than all its data blocks are used. */
  lemma FirstFitIsLow(v: Volume, chains: Chains, lost: set<nat>, b: nat)
    requires Inv(v, chains, lost) && Low(chains)
    requires |Owned(chains)| < SAVED_ENTRIES - DATA_START
    requires DATA_START <= b < DISK_BLOCKS
    requires forall x :: DATA_START <= x < b ==> v.fat[x] != FAT_FREE
    ensures b < SAVED_ENTRIES
  {
    if b >= SAVED_ENTRIES {
      var low := Range(DATA_START, SAVED_ENTRIES);
      forall x | x in low ensures x in Owned(chains) {
        assert v.fat[x] != FAT_FREE;
      }
      SubsetSize(low, Owned(chains));
      assert false;
    }
  }
}
