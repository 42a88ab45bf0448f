/** Thread-local storage: page objects shared between the clones, found through a hash table
    of linked buckets. Every call is one atomic step of the thread `self`. */
module ThreadLocalStorage {
  import opened Bytes
  import opened Collections
  import opened CopyOnWrite
  import PrivateArrays

  const HASH_SIZE: int := 128

  class Page {
    var mem: seq<byte>
    var refCount: int
    var mapped: bool
    /** Access would fault. */
    var locked: bool

    constructor (bytes: seq<byte>, protect: bool)
      ensures mem == bytes && refCount == 1 && mapped && locked == protect
    {
      mem := bytes;
      refCount := 1;
      mapped := true;
      locked := protect;
    }
  }

  class Tls {
    const tid: nat
    const size: uint32
    const pageNum: nat
    var pages: seq<Page>

    constructor (t: nat, sz: uint32, n: nat, ps: seq<Page>)
      ensures tid == t && size == sz && pageNum == n && pages == ps
    {
      tid := t;
      size := sz;
      pageNum := n;
      pages := ps;
    }
  }

  class HashElement {
    const tid: nat
    const tls: Tls
    var next: HashElement?

    constructor (t: nat, storage: Tls, rest: HashElement?)
      ensures tid == t && tls == storage && next == rest
    {
      tid := t;
      tls := storage;
      next := rest;
    }
  }

  function Hash(tid: nat): nat {
    tid % HASH_SIZE
  }

  /** What a write finds: the pages of its storage, which of their slots are shared, and all that
      are live. */
  datatype Begun = Begun(tls: Tls, pages: seq<Page>, shared: set<nat>, live: set<Page>)

  class Library {
    const pageSize: nat
    const table: array<HashElement?>

    /** The elements of each bucket in list order, all elements by thread, and the mapped pages. */
    ghost var buckets: seq<seq<HashElement>>
    ghost var index: map<nat, HashElement>
    ghost var live: set<Page>

    constructor (ps: nat)
      requires ps > 0
      ensures Valid() && fresh(Repr()) && pageSize == ps && Contents() == map[]
    {
      pageSize := ps;
      table := new HashElement?[HASH_SIZE](_ => null);
      buckets := seq(HASH_SIZE, _ => []);
      index := map[];
      live := {};
    }

    ghost function Storages(): set<Tls>
      reads this`index
    {
      set t | t in index :: index[t].tls
    }

    ghost function Repr(): set<object>
      reads this
    {
      {this, table} + index.Values + Storages() + live
    }

    /** Bucket b is the list that starts at its table entry. */
    ghost predicate Linked(b: nat)
      requires b < table.Length && b < |buckets|
      reads this`buckets, table, buckets[b]
    {
      var list := buckets[b];
      table[b] == (if list == [] then null else list[0]) &&
      forall i {:trigger list[i].next} :: 0 <= i < |list| ==> list[i].next == if i + 1 < |list| then list[i + 1] else null
    }

    /** The buckets hold exactly the indexed elements, each where its hash says. */
    ghost predicate TableOk()
      reads this`buckets, this`index, table, index.Values
    {
      table.Length == |buckets| == HASH_SIZE &&
      (forall b, i :: 0 <= b < HASH_SIZE && 0 <= i < |buckets[b]| ==>
         var e := buckets[b][i];
         e.tid in index && index[e.tid] == e && Hash(e.tid) == b) &&
      (forall b :: 0 <= b < HASH_SIZE ==> Distinct(buckets[b]) && Linked(b)) &&
      (forall t :: t in index ==> index[t].tid == t && index[t] in buckets[Hash(t)])
    }

    ghost predicate StoragesOk()
      reads this`index, Storages()`pages
    {
      (forall t :: t in index ==> index[t].tls.tid == t && index[t].tls.pageNum == |index[t].tls.pages|) &&
      (forall t, u :: t in index && u in index && t != u ==> index[t].tls != index[u].tls)
    }

    ghost function Snapshot(): Store<Page>
      reads this`index, this`live, Storages()`pages, live`mem, live`refCount
    {
      Store(map t | t in index :: index[t].tls.pages, map t | t in index :: index[t].tls.size,
            map p | p in live :: p.mem, map p | p in live :: p.refCount)
    }

    /** Every live page is mapped and protected. */
    ghost predicate AllProtected()
      reads this`live, live`mapped, live`locked
    {
      forall p :: p in live ==> p.mapped && p.locked
    }

    ghost predicate Valid()
      reads this, table, index.Values, Storages(), live
    {
      TableOk() && StoragesOk() && AllProtected() && pageSize > 0 && Inv(Snapshot(), pageSize)
    }

    /** The private array of every thread that has storage. */
    ghost function Contents(): PrivateArrays.Arrays
      requires pageSize > 0 && Inv(Snapshot(), pageSize)
      reads this`index, this`live, Storages()`pages, live`mem, live`refCount
    {
      Arrays(Snapshot(), pageSize)
    }

    /** Walks the bucket of tid. */
    method Find(tid: nat) returns (e: HashElement?)
      requires TableOk()
      ensures e == if tid in index then index[tid] else null
    {
      ghost var list := buckets[Hash(tid)];
      ghost var i := 0;
      e := table[Hash(tid)];
      while e != null && e.tid != tid
        invariant 0 <= i <= |list| && e == if i < |list| then list[i] else null
        invariant forall j :: 0 <= j < i ==> list[j].tid != tid
        decreases |list| - i
      {
        assert list[i].next == if i + 1 < |list| then list[i + 1] else null;
        e := e.next;
        i := i + 1;
      }
    }

    /** Protects or unprotects the given pages. */
    method SetLocks(pages: seq<Page>, flag: bool)
      modifies (set p | p in pages)`locked
      ensures forall p :: p in pages ==> p.locked == flag
    {
      var i := 0;
      while i < |pages|
        invariant 0 <= i <= |pages|
        invariant forall j :: 0 <= j < i ==> pages[j].locked == flag
      {
        pages[i].locked := flag;
        i := i + 1;
      }
    }

    lemma PagesOf(t: nat)
      requires Valid() && t in index
      ensures var tls := index[t].tls;
              tls.pageNum == |tls.pages| == PagesFor(tls.size, pageSize) && Distinct(tls.pages) &&
              (forall k :: 0 <= k < |tls.pages| ==>
                 tls.pages[k] in live && |tls.pages[k].mem| == pageSize && tls.pages[k].refCount >= 1) &&
              |Contents()[t]| == tls.size && t in Contents()
    {
      var s := Snapshot();
      assert s.slots[t] == index[t].tls.pages && s.sizes[t] == index[t].tls.size;
      forall k | 0 <= k < |index[t].tls.pages|
        ensures index[t].tls.pages[k] in live && |index[t].tls.pages[k].mem| == pageSize &&
                index[t].tls.pages[k].refCount >= 1
      {
        var p := s.slots[t][k];
        assert p in s.mem && s.mem[p] == p.mem && s.refs[p] == p.refCount;
      }
    }

    /** Copies bytes of a thread's unprotected pages out, one at a time. */
    method ReadBytes(tls: Tls, offset: uint32, length: uint32, ghost self: nat, ghost c: seq<byte>)
      returns (buffer: seq<byte>)
      requires pageSize > 0 && Inv(Snapshot(), pageSize)
      requires self in index && tls == index[self].tls && offset + length <= tls.size
      requires forall p :: p in tls.pages ==> !p.locked
      requires self in Contents() && c == Contents()[self]
      ensures buffer == c[offset..offset + length]
    {
      hide Inv, Content, PageOf, OffsetOf;
      ghost var s := Snapshot();
      assert s.slots[self] == tls.pages && s.sizes[self] == tls.size;
      buffer := [];
      var i := 0;
      while i < length
        invariant 0 <= i <= length && buffer == c[offset..offset + i]
      {
        ByteAtIn(s, self, offset + i);
        var p := tls.pages[PageOf(offset + i, pageSize)];
        assert !p.locked;  // no fault
        assert s.mem[p] == p.mem;
        buffer := buffer + [p.mem[OffsetOf(offset + i, pageSize)]];
        i := i + 1;
      }
    }

    method TlsRead(self: nat, offset: uint32, length: uint32) returns (code: int, buffer: seq<byte>)
      requires Valid() && offset + length < 0x1_0000_0000
      modifies live`locked
      ensures Valid()
      ensures (Contents(), PrivateArrays.Answer(code, buffer))
              == PrivateArrays.Effect(old(Contents()), self, PrivateArrays.Read(offset, length))
    {
      hide TableOk, StoragesOk, Snapshot, Inv, Arrays, Content;
      KeysMatch();
      if self in index {
        PagesOf(self);
      }
      var e := Find(self);
      assert Storages() == old(Storages());
      if e == null {
        return -1, [];
      }
      var tls := e.tls;
      if offset + length > tls.size {
        return -1, [];
      }
      Unprotect(tls, self);
      buffer := ReadBytes(tls, offset, length, self, Contents()[self]);
      Protect(tls, self);
      code := 0;
    }

    lemma KeysMatch()
      requires pageSize > 0 && Inv(Snapshot(), pageSize)
      ensures Contents().Keys == index.Keys
    {
    }

    lemma ByteAtIn(s: Store<Page>, t: nat, j: nat)
      requires Inv(s, pageSize) && t in s.slots && j < s.sizes[t]
      ensures PageOf(j, pageSize) < |s.slots[t]| && OffsetOf(j, pageSize) < pageSize
      ensures var p := s.slots[t][PageOf(j, pageSize)];
              p in s.mem && |s.mem[p]| == pageSize && s.mem[p][OffsetOf(j, pageSize)] == Content(s, pageSize, t)[j]
    {
      PositionInRange(j, s.sizes[t], pageSize);
    }

    /** A thread's own pages are accessible, everybody else's are protected. */
    ghost predicate OnlyOwnUnlocked(tls: Tls)
      reads this`live, live`mapped, live`locked, tls`pages
    {
      (forall p :: p in live ==> p.mapped) &&
      (forall p :: p in live ==> p.locked == (p !in tls.pages))
    }

    /** Before a call touches the thread's pages. */
    method Unprotect(tls: Tls, ghost self: nat)
      requires Valid() && self in index && tls == index[self].tls
      modifies (set p | p in tls.pages)`locked
      ensures TableOk() && StoragesOk() && Snapshot() == old(Snapshot()) && OnlyOwnUnlocked(tls)
      ensures Now(tls) == old(Now(tls))
    {
      hide TableOk, StoragesOk, Inv;
      SetLocks(tls.pages, false);
      assert Storages() == old(Storages());
    }

    /** After it did. */
    method Protect(tls: Tls, ghost self: nat)
      requires TableOk() && StoragesOk() && pageSize > 0 && Inv(Snapshot(), pageSize)
      requires self in index && tls == index[self].tls && OnlyOwnUnlocked(tls)
      modifies (set p | p in tls.pages)`locked
      ensures Valid() && Snapshot() == old(Snapshot())
    {
      hide TableOk, StoragesOk, Inv;
      SetLocks(tls.pages, true);
      assert Storages() == old(Storages());
    }

    /** Page k of the thread, made its own if it was shared; the original is protected again. */
    method OwnPage(tls: Tls, k: nat, ghost self: nat) returns (p: Page)
      requires StoragesOk() && self in index && tls == index[self].tls && OnlyOwnUnlocked(tls)
      requires k < |tls.pages| && Distinct(tls.pages) && tls.pages[k] in live
      modifies this`live, tls`pages, live`refCount, live`locked
      ensures StoragesOk() && OnlyOwnUnlocked(tls) && k < |tls.pages| && p == tls.pages[k] && p in live
      ensures Snapshot() == CopyOnWrite.Split(old(Snapshot()), self, k, p) && p.mem == old(tls.pages[k].mem)
      ensures live == (if old(tls.pages[k].refCount) > 1 then old(live) + {p} else old(live))
      ensures old(live) <= live && fresh(live - old(live))
      ensures PageSplit(tls, k)
    {
      hide StoragesOk, Snapshot, CopyOnWrite.Split;
      OwnStorage(self, tls);
      ghost var c := tls.pages;
      p := tls.pages[k];
      if p.refCount > 1 {
        var copy := new Page(p.mem, false);
        ReplacedMembers(c, k, copy);
        assert copy !in live && copy !in c;
        tls.pages := tls.pages[k := copy];
        p.refCount := p.refCount - 1;
        p.locked := true;
        live := live + {copy};
        assert tls.pages == c[k := copy];
        forall x | x in live ensures x.mapped && x.locked == (x !in tls.pages) {
          if x != copy && x != p {
            assert x.locked == old(x.locked) && x.mapped == old(x.mapped);
          }
        }
        p := copy;
        StoragesFrame(self, tls);
        SnapshotSplit(self, tls, k, copy);
      } else {
        UnsharedPage(self, k);
      }
    }

    lemma UnsharedPage(self: nat, k: nat)
      requires self in index && k < |index[self].tls.pages| && index[self].tls.pages[k] in live
      requires index[self].tls.pages[k].refCount <= 1
      ensures CopyOnWrite.Split(Snapshot(), self, k, index[self].tls.pages[k]) == Snapshot()
    {
      assert Snapshot().slots[self] == index[self].tls.pages;
    }

    lemma OwnStorage(self: nat, tls: Tls)
      requires StoragesOk() && self in index && tls == index[self].tls
      ensures forall u :: u in index && u != self ==> index[u].tls != tls
    {
    }

    twostate lemma SnapshotSplit(new self: nat, tls: Tls, new k: nat, new copy: Page)
      requires index == old(index) && self in index && tls == index[self].tls && k < |old(tls.pages)|
      requires forall u :: u in index && u != self ==> index[u].tls != tls && index[u].tls.pages == old(index[u].tls.pages)
      requires old(tls.pages)[k] in old(live) && old(tls.pages[k].refCount) > 1
      requires live == old(live) + {copy} && copy !in old(live)
      requires tls.pages == old(tls.pages)[k := copy] && copy.mem == old(tls.pages[k].mem) && copy.refCount == 1
      requires forall p :: p in old(live) ==>
                 p.mem == old(p.mem) && p.refCount == old(p.refCount) - (if p == old(tls.pages)[k] then 1 else 0)
      ensures Snapshot() == CopyOnWrite.Split(old(Snapshot()), self, k, copy)
    {
      var s, s', original := old(Snapshot()), Snapshot(), old(tls.pages)[k];
      assert s'.sizes == s.sizes;
      assert s'.slots == s.slots[self := old(tls.pages)[k := copy]];
      assert s'.mem == s.mem[copy := s.mem[original]];
      assert s'.refs == s.refs[original := s.refs[original] - 1][copy := 1];
    }

    twostate lemma StoragesFrame(new self: nat, tls: Tls)
      requires old(StoragesOk()) && index == old(index) && self in index && tls == index[self].tls
      requires forall u :: u in index && u != self ==> index[u].tls.pages == old(index[u].tls.pages)
      requires |tls.pages| == |old(tls.pages)|
      ensures StoragesOk()
    {
    }

    /** What storing into page k of a thread does to the pages. */
    twostate predicate PageSplit(tls: Tls, k: nat)
      requires k < |old(tls.pages)|
      reads this, tls, live
    {
      OtherCountsKept(old(tls.pages[k]), old(tls.pages[k].refCount) > 1) &&
      (old(tls.pages[k].refCount) > 1 ==> PageReplaced(tls, k)) &&
      (old(tls.pages[k].refCount) <= 1 ==> tls.pages == old(tls.pages) && live <= old(live))
    }

    twostate predicate OtherCountsKept(p: Page, shared: bool)
      reads this`live, live`refCount
    {
      forall x :: x in live && x in old(live) && (x != p || !shared) ==> x.refCount == old(x.refCount)
    }

    twostate predicate PageReplaced(tls: Tls, k: nat)
      requires k < |old(tls.pages)|
      reads this, tls, live
    {
      k < |tls.pages| && tls.pages == old(tls.pages)[k := tls.pages[k]] &&
      fresh(tls.pages[k]) && tls.pages[k] in live && tls.pages[k].refCount == 1 &&
      live <= old(live) + {tls.pages[k]}
    }

    /** Stores one byte into page k. */
    method StoreByte(tls: Tls, k: nat, off: nat, b: byte, ghost self: nat) returns (ghost p: Page)
      requires StoragesOk() && self in index && tls == index[self].tls && OnlyOwnUnlocked(tls)
      requires k < |tls.pages| && Distinct(tls.pages) && tls.pages[k] in live && off < |tls.pages[k].mem|
      modifies this`live, tls`pages, live`mem, live`refCount, live`locked
      ensures StoragesOk() && OnlyOwnUnlocked(tls)
      ensures Snapshot() == Stored(old(Snapshot()), self, k, off, b, p)
      ensures old(tls.pages[k].refCount) > 1 ==> p !in old(live)
      ensures old(live) <= live && fresh(live - old(live)) && PageSplit(tls, k)
    {
      hide StoragesOk, CopyOnWrite.Split, Snapshot, Poke, OnlyOwnUnlocked;
      SlotsAt(self);
      ghost var s := Snapshot();
      var page := OwnPage(tls, k, self);
      p := page;
      SlotsAt(self);
      Accessible(tls, k);
      assert !page.locked;  // no fault
      label Before:
      page.mem := Poke(page.mem, off, b);
      SnapshotPoked@Before(page);
      assert Storages() == old(Storages());
    }

    lemma Accessible(tls: Tls, k: nat)
      requires OnlyOwnUnlocked(tls) && k < |tls.pages| && tls.pages[k] in live
      ensures !tls.pages[k].locked
    {
    }

    /** Stores one byte at a position of the thread's array: a page that others share is first
        copied, and its original protected. */
    method WriteByte(tls: Tls, pos: nat, b: byte, ghost self: nat)
      requires TableOk() && StoragesOk() && pageSize > 0 && Inv(Snapshot(), pageSize)
      requires self in index && tls == index[self].tls && pos < tls.size && OnlyOwnUnlocked(tls)
      modifies this`live, tls`pages, live`mem, live`refCount, live`locked
      ensures TableOk() && StoragesOk() && Inv(Snapshot(), pageSize) && OnlyOwnUnlocked(tls)
      ensures self in old(Contents()) &&
              Contents() == old(Contents())[self := Poke(old(Contents())[self], pos, b)]
      ensures old(live) <= live && fresh(live - old(live))
      ensures PageOf(pos, pageSize) < |old(tls.pages)| && PageSplit(tls, PageOf(pos, pageSize))
    {
      hide Inv, Arrays, PageOf, OffsetOf, TableOk, StoragesOk, Stored, Snapshot, Content;
      ghost var s := Snapshot();
      KeysMatch();
      SlotsAt(self);
      PagesOfStore(s, self);
      ByteAtIn(s, self, pos);
      var k, off := PageOf(pos, pageSize), OffsetOf(pos, pageSize);
      ghost var p := StoreByte(tls, k, off, b, self);
      StoredArrays(s, self, pos, k, off, b, p, pageSize);
      TableFrame();
    }

    lemma SlotsAt(t: nat)
      requires t in index
      ensures var s := Snapshot();
              t in s.slots && s.slots[t] == index[t].tls.pages && t in s.sizes && s.sizes[t] == index[t].tls.size &&
              s.mem.Keys == s.refs.Keys == live && forall p :: p in live ==> s.refs[p] == p.refCount && s.mem[p] == p.mem
    {
    }

    twostate lemma TableFrame()
      requires old(TableOk()) && buckets == old(buckets) && index == old(index) && unchanged(table)
      requires forall e :: e in index.Values ==> e.next == old(e.next)
      ensures TableOk()
    {
    }

    twostate lemma SnapshotPoked(p: Page)
      requires index == old(index) && live == old(live) && p in live
      requires forall u :: u in index ==> index[u].tls.pages == old(index[u].tls.pages)
      requires forall x :: x in live ==> x.refCount == old(x.refCount) && (x != p ==> x.mem == old(x.mem))
      ensures Snapshot() == old(Snapshot()).(mem := old(Snapshot()).mem[p := p.mem])
    {
      var s, s' := old(Snapshot()), Snapshot();
      assert s'.slots == s.slots && s'.sizes == s.sizes && s'.refs == s.refs;
      assert s'.mem == s.mem[p := p.mem];
    }

    lemma PagesOfStore(s: Store<Page>, t: nat)
      requires Inv(s, pageSize) && t in s.slots
      ensures Distinct(s.slots[t]) && |s.slots[t]| == PagesFor(s.sizes[t], pageSize)
      ensures forall k :: 0 <= k < |s.slots[t]| ==> s.slots[t][k] in s.mem
    {
    }

    /** Page k holds one of the n positions from `offset` on. */
    ghost predicate Touched(k: nat, offset: nat, n: nat)
      requires pageSize > 0
    {
      exists j: nat :: offset <= j < offset + n && PageOf(j, pageSize) == k
    }

    /** Since the start of a write: exactly the shared pages that the written range touches have been replaced, each by an
        unshared new page, and no other page was made. */
    ghost predicate Replaced(s: Begun, offset: nat, n: nat)
      requires pageSize > 0
      reads this`live, s.tls`pages, live`refCount
    {
      |s.tls.pages| == |s.pages| && (forall k :: 0 <= k < |s.pages| ==> s.pages[k] in s.live && s.tls.pages[k] in live) &&
      (forall p :: p in live && p !in s.live ==> p in s.tls.pages) &&
      forall k :: 0 <= k < |s.pages| ==>
        if Touched(k, offset, n) && k in s.shared
        then s.tls.pages[k] !in s.live && s.tls.pages[k].refCount == 1
        else s.tls.pages[k] == s.pages[k] && (s.tls.pages[k].refCount > 1 <==> k in s.shared)
    }

    /** The slots that hold shared pages. */
    ghost function SharedSlots(tls: Tls): (ks: set<nat>)
      reads tls, tls.pages
    {
      set k: nat | k < |tls.pages| && tls.pages[k].refCount > 1
    }

    ghost function Now(tls: Tls): (s: Begun)
      reads this`live, tls, tls.pages
      ensures s.tls == tls
    {
      Begun(tls, tls.pages, SharedSlots(tls), live)
    }

    twostate predicate Minimal(tls: Tls, offset: nat, n: nat)
      requires pageSize > 0
      reads this, tls, tls.pages, live
    {
      Replaced(old(Now(tls)), offset, n)
    }

    /** The slots whose shared pages the written range touches. */
    ghost function Copied(shared: set<nat>, offset: nat, n: nat): set<nat>
      requires pageSize > 0
    {
      set k | k in shared && Touched(k, offset, n)
    }

    lemma TouchedNext(k: nat, offset: nat, i: nat)
      requires pageSize > 0
      ensures Touched(k, offset, i + 1) <==> Touched(k, offset, i) || k == PageOf(offset + i, pageSize)
    {
      hide PageOf;
      if k == PageOf(offset + i, pageSize) {
        assert offset <= offset + i < offset + (i + 1);
      }
    }

    /** Storing one more byte replaces at most the page of that byte. */
    twostate lemma ReplacedNext(s: Begun, new offset: nat, new i: nat)
      requires pageSize > 0 && old(Replaced(s, offset, i)) && PageOf(offset + i, pageSize) < |old(s.tls.pages)|
      requires PageSplit(s.tls, PageOf(offset + i, pageSize))
      requires s.live <= old(live) <= live && Distinct(old(s.tls.pages)) && fresh(live - old(live))
      ensures Replaced(s, offset, i + 1)
    {
      hide PageOf, Touched;
      var j := PageOf(offset + i, pageSize);
      forall k | 0 <= k < |s.pages|
        ensures Touched(k, offset, i + 1) <==> Touched(k, offset, i) || k == j
      {
        TouchedNext(k, offset, i);
      }
      forall p | p in live && p !in s.live ensures p in s.tls.pages {
        if p in old(live) {
          var k :| 0 <= k < |s.pages| && old(s.tls.pages)[k] == p;
          assert s.tls.pages[k] == p;
        }
      }
    }

    /** A minimal write copies each of those pages once: it makes as many pages as there are. */
    twostate lemma CopiedOnce(tls: Tls, new offset: nat, new n: nat)
      requires pageSize > 0 && Minimal(tls, offset, n) && Distinct(tls.pages)
      ensures |live - old(live)| == |Copied(old(SharedSlots(tls)), offset, n)|
    {
      var ks := Copied(old(SharedSlots(tls)), offset, n);
      forall p | p in live - old(live) ensures exists k :: k in ks && tls.pages[k] == p {
        var k :| 0 <= k < |tls.pages| && tls.pages[k] == p;
        assert k in ks;
      }
      assert live - old(live) == set k | k in ks :: tls.pages[k];
      ImageSize(ks, tls.pages);
    }

    /** Copies the buffer into the thread's array, one byte at a time. */
    method WriteBytes(tls: Tls, offset: uint32, buffer: seq<byte>, ghost self: nat)
      requires TableOk() && StoragesOk() && pageSize > 0 && Inv(Snapshot(), pageSize)
      requires self in index && tls == index[self].tls && offset + |buffer| <= tls.size && OnlyOwnUnlocked(tls)
      modifies this`live, tls`pages, live`mem, live`refCount, live`locked
      ensures TableOk() && StoragesOk() && Inv(Snapshot(), pageSize) && OnlyOwnUnlocked(tls)
      ensures self in old(Contents()) && |old(Contents())[self]| == tls.size &&
              Contents() == old(Contents())[self := Overlay(old(Contents())[self], offset, buffer)]
      ensures old(live) <= live && fresh(live - old(live)) && Minimal(tls, offset, |buffer|)
    {
      hide Inv, Arrays, PageOf, TableOk, StoragesOk, Snapshot, Content, Overlay, Poke, OnlyOwnUnlocked, Replaced, Touched, PageSplit;
      KeysMatch();
      ContentSize(self);
      ghost var m := Contents();
      ghost var c := m[self];
      ghost var s := Now(tls);
      OwnPagesLive(self);
      NothingReplaced(tls, offset);
      var i := 0;
      OverlayNothing(c, offset, buffer);
      assert m == m[self := c];
      while i < |buffer|
        invariant 0 <= i <= |buffer|
        invariant TableOk() && StoragesOk() && Inv(Snapshot(), pageSize) && OnlyOwnUnlocked(tls)
        invariant Contents() == m[self := Overlay(c, offset, buffer[..i])]
        invariant old(live) <= live && fresh(live - old(live)) && Replaced(s, offset, i)
      {
        label Before:
        SlotsAt(self);
        PagesOfStore(Snapshot(), self);
        WriteByte(tls, offset + i, buffer[i], self);
        ReplacedNext@Before(s, offset, i);
        PokeNext(c, offset, buffer, i);
        i := i + 1;
      }
      assert buffer[..|buffer|] == buffer;
    }

    lemma NothingReplaced(tls: Tls, offset: nat)
      requires pageSize > 0 && forall k :: 0 <= k < |tls.pages| ==> tls.pages[k] in live
      ensures Replaced(Now(tls), offset, 0)
    {
    }

    lemma OverlayNothing(c: seq<byte>, offset: nat, buffer: seq<byte>)
      requires offset <= |c|
      ensures Overlay(c, offset, buffer[..0]) == c
    {
    }

    lemma PokeNext(c: seq<byte>, offset: nat, buffer: seq<byte>, i: nat)
      requires offset + |buffer| <= |c| && i < |buffer|
      ensures Poke(Overlay(c, offset, buffer[..i]), offset + i, buffer[i]) == Overlay(c, offset, buffer[..i + 1])
    {
    }

    lemma ContentSize(t: nat)
      requires pageSize > 0 && Inv(Snapshot(), pageSize) && t in index
      ensures t in Contents() && |Contents()[t]| == index[t].tls.size
    {
    }

    /** The bytes of the buffer are at the offset, the others are as they were. */
    predicate Overlaid(before: seq<byte>, after: seq<byte>, offset: nat, buffer: seq<byte>) {
      |after| == |before| &&
      forall j :: 0 <= j < |after| ==>
        after[j] == if offset <= j < offset + |buffer| then buffer[j - offset] else before[j]
    }

    lemma OverlayBytes(c: seq<byte>, offset: nat, buffer: seq<byte>)
      requires offset + |buffer| <= |c|
      ensures Overlaid(c, Overlay(c, offset, buffer), offset, buffer)
    {
    }

    /** Unprotects the thread's pages, writes, and protects them again. */
    method WriteUnprotected(tls: Tls, offset: uint32, buffer: seq<byte>, ghost self: nat)
      requires Valid() && self in index && tls == index[self].tls && offset + |buffer| <= tls.size
      modifies this`live, Storages()`pages, live`mem, live`refCount, live`locked
      ensures Valid() && old(live) <= live && fresh(live - old(live))
      ensures self in old(Contents()) && |old(Contents())[self]| == tls.size &&
              Contents() == old(Contents())[self := Overlay(old(Contents())[self], offset, buffer)]
      ensures self in Contents() && Overlaid(old(Contents())[self], Contents()[self], offset, buffer)
      ensures Minimal(tls, offset, |buffer|)
      ensures |live - old(live)| == |Copied(old(SharedSlots(tls)), offset, |buffer|)|
    {
      hide TableOk, StoragesOk, Snapshot, Inv, Arrays, Content, Overlay, Distinct, PagesFor, Replaced, Now, SharedSlots, Copied, Overlaid;
      KeysMatch();
      PagesOf(self);
      OverlayBytes(Contents()[self], offset, buffer);
      Unprotect(tls, self);
      WriteBytes(tls, offset, buffer, self);
      OwnPagesLive(self);
      Protect(tls, self);
      PagesOf(self);
      CopiedOnce(tls, offset, |buffer|);
    }

    method TlsWrite(self: nat, offset: uint32, buffer: seq<byte>) returns (code: int)
      requires Valid() && offset + |buffer| < 0x1_0000_0000
      modifies this`live, Storages()`pages, live`mem, live`refCount, live`locked
      ensures Valid() && old(live) <= live && fresh(live - old(live))
      ensures (Contents(), PrivateArrays.Answer(code, []))
              == PrivateArrays.Effect(old(Contents()), self, PrivateArrays.Write(offset, buffer))
      ensures code == 0 <==> self in old(Contents()) && offset + |buffer| <= |old(Contents())[self]|
      ensures code == 0 ==> self in Contents() && Overlaid(old(Contents())[self], Contents()[self], offset, buffer)
      ensures code == 0 ==> self in index && Minimal(index[self].tls, offset, |buffer|) &&
                            |live - old(live)| == |Copied(old(SharedSlots(index[self].tls)), offset, |buffer|)|
      ensures code != 0 ==> live == old(live) && forall t :: t in index ==> index[t].tls.pages == old(index[t].tls.pages)
    {
      hide TableOk, StoragesOk, Snapshot, Inv, Arrays, Content, Overlay, Replaced, Now, SharedSlots, Copied, Overlaid;
      KeysMatch();
      if self in index {
        ContentSize(self);
      }
      var e := Find(self);
      assert Storages() == old(Storages());
      if e == null {
        return -1;
      }
      var tls := e.tls;
      if offset + |buffer| > tls.size {
        return -1;
      }
      WriteUnprotected(tls, offset, buffer, self);
      code := 0;
    }

    lemma OwnPagesLive(t: nat)
      requires pageSize > 0 && Inv(Snapshot(), pageSize) && t in index
      ensures forall p :: p in index[t].tls.pages ==> p in live
    {
      var s := Snapshot();
      forall p | p in index[t].tls.pages ensures p in live {
        var k :| 0 <= k < |s.slots[t]| && s.slots[t][k] == p;
        assert s.slots[t][k] in s.mem;
      }
    }

    // -------------------------------------------------------------- creating and cloning

    /** Puts a new element for `self` at the front of its bucket. */
    method Push(self: nat, tls: Tls)
      requires TableOk() && self !in index
      modifies this`buckets, this`index, table
      ensures TableOk() && self in index && index == old(index)[self := index[self]]
      ensures fresh(index[self]) && index[self].tls == tls
    {
      var h := Hash(self);
      var e := new HashElement(self, tls, table[h]);
      table[h] := e;
      buckets := buckets[h := [e] + buckets[h]];
      index := index[self := e];
      PushedLinks(self, e);
    }

    twostate lemma SameBucket(b: nat)
      requires b < table.Length && b < |buckets| && b < |old(buckets)| && buckets[b] == old(buckets)[b]
      requires old(Linked(b)) && table[b] == old(table[b])
      requires forall i :: 0 <= i < |buckets[b]| ==> buckets[b][i].next == old(buckets[b][i].next)
      ensures Linked(b)
    {
      var list := buckets[b];
      forall i | 0 <= i < |list| ensures list[i].next == if i + 1 < |list| then list[i + 1] else null {
        assert old(list[i].next) == if i + 1 < |list| then list[i + 1] else null;
      }
    }

    twostate lemma PushedBucket(b: nat, new e: HashElement)
      requires b < table.Length && b < |buckets| && b < |old(buckets)| && buckets[b] == [e] + old(buckets)[b]
      requires old(Linked(b)) && table[b] == e && e.next == old(table[b])
      requires forall i :: 0 <= i < |old(buckets)[b]| ==> old(buckets)[b][i].next == old(buckets[b][i].next)
      ensures Linked(b)
    {
      var list, was := buckets[b], old(buckets)[b];
      forall i | 0 <= i < |list| ensures list[i].next == if i + 1 < |list| then list[i + 1] else null {
        if i > 0 {
          assert list[i] == was[i - 1];
          assert old(was[i - 1].next) == if i < |was| then was[i] else null;
        }
      }
    }

    /** The bucket lists of the table hold the elements of the index. */
    twostate lemma PushedLinks(self: nat, new e: HashElement)
      requires old(TableOk()) && self !in old(index) && fresh(e) && e.tid == self
      requires index == old(index)[self := e] && e.next == old(table[Hash(self)])
      requires buckets == old(buckets)[Hash(self) := [e] + old(buckets)[Hash(self)]]
      requires table[Hash(self)] == e && forall b :: 0 <= b < HASH_SIZE && b != Hash(self) ==> table[b] == old(table[b])
      requires forall x :: x in old(index.Values) ==> x.next == old(x.next)
      ensures TableOk()
    {
      hide Linked;
      var h := Hash(self);
      forall b | 0 <= b < HASH_SIZE ensures Distinct(buckets[b]) && Linked(b) {
        var was := old(buckets)[b];
        forall i | 0 <= i < |was| ensures was[i] in old(index.Values) && was[i] != e {
          assert old(index)[was[i].tid] == was[i];
        }
        if b == h {
          PushedBucket(b, e);
        } else {
          SameBucket(b);
        }
      }
      forall t | t in index ensures index[t].tid == t && index[t] in buckets[Hash(t)] {
        if t != self && Hash(t) == h {
          assert index[t] in old(buckets)[h];
        }
      }
    }

    /** Fresh zeroed pages, protected, each with one reference. */
    method AllocatePages(n: nat) returns (pages: seq<Page>)
      ensures |pages| == n && Distinct(pages)
      ensures forall p :: p in pages ==>
                fresh(p) && p.mem == Zeros(pageSize) && p.refCount == 1 && p.mapped && p.locked
    {
      pages := [];
      while |pages| < n
        invariant |pages| <= n && Distinct(pages)
        invariant forall p :: p in pages ==>
                    fresh(p) && p.mem == Zeros(pageSize) && p.refCount == 1 && p.mapped && p.locked
      {
        var p := new Page(Zeros(pageSize), true);
        pages := pages + [p];
      }
    }

    /** Nothing joined the library that was not created by the call. */
    twostate predicate Extends()
      reads this`index, this`live
    {
      (forall t :: t in index ==>
         (t in old(index) && index[t] == old(index[t])) || (fresh(index[t]) && fresh(index[t].tls))) &&
      fresh(live - old(live))
    }

    /** A storage object joined the index for thread `self`, and the others are as before. */
    twostate predicate Joined(self: nat, new tls: Tls)
      reads this`index, Storages()`pages
    {
      self !in old(index) && self in index && index == old(index)[self := index[self]] &&
      index[self].tls == tls && fresh(tls) &&
      forall u :: u in old(index) ==> index[u].tls.pages == old(index[u].tls.pages)
    }

    twostate lemma JoinedStorages(self: nat, new tls: Tls)
      requires old(StoragesOk()) && Joined(self, tls) && tls.tid == self && tls.pageNum == |tls.pages|
      ensures StoragesOk()
    {
    }

    twostate lemma SnapshotMemory(new pages: seq<Page>, new bytes: seq<byte>)
      requires live == old(live) + set p | p in pages
      requires forall p :: p in old(live) ==> p !in pages && p.mem == old(p.mem)
      requires forall p :: p in pages ==> p.mem == bytes
      ensures Snapshot().mem == old(Snapshot()).mem + map p | p in pages :: bytes
    {
      var m, m' := old(Snapshot()).mem, Snapshot().mem;
      assert m'.Keys == live && m.Keys == old(live);
      assert forall p :: p in live ==> m'[p] == p.mem;
    }

    twostate lemma SnapshotCounts(new pages: seq<Page>)
      requires live == old(live) + set p | p in pages
      requires forall p :: p in old(live) ==> p !in pages && p.refCount == old(p.refCount)
      requires forall p :: p in pages ==> p.refCount == 1
      ensures Snapshot().refs == old(Snapshot()).refs + map p | p in pages :: 1
    {
      var m, m' := old(Snapshot()).refs, Snapshot().refs;
      assert m'.Keys == live && m.Keys == old(live);
      assert forall p :: p in live ==> m'[p] == p.refCount;
    }

    twostate lemma SnapshotSlots(self: nat, new tls: Tls)
      requires Joined(self, tls)
      ensures Snapshot().slots == old(Snapshot()).slots[self := tls.pages]
      ensures Snapshot().sizes == old(Snapshot()).sizes[self := tls.size]
    {
    }

    twostate lemma SnapshotCreated(self: nat, new tls: Tls)
      requires Joined(self, tls) && live == old(live) + set p | p in tls.pages
      requires forall p :: p in old(live) ==>
                 p !in tls.pages && p.mem == old(p.mem) && p.refCount == old(p.refCount)
      requires forall p :: p in tls.pages ==> p.mem == Zeros(pageSize) && p.refCount == 1
      ensures Snapshot() == Created(old(Snapshot()), self, tls.size, tls.pages, pageSize)
    {
      hide Zeros, Snapshot;
      SnapshotSlots(self, tls);
      SnapshotMemory(tls.pages, Zeros(pageSize));
      SnapshotCounts(tls.pages);
    }

    /** Makes a storage object for `self` and enters it in the table. */
    method Enter(self: nat, size: uint32, pageNum: nat, pages: seq<Page>) returns (tls: Tls)
      requires TableOk() && StoragesOk() && self !in index && pageNum == |pages|
      modifies this`buckets, this`index, table
      ensures TableOk() && StoragesOk() && Joined(self, tls) && fresh(index[self])
      ensures tls.size == size && tls.pages == pages
    {
      hide TableOk, StoragesOk;
      tls := new Tls(self, size, pageNum, pages);
      assert Storages() == old(Storages());
      Push(self, tls);
      JoinedStorages(self, tls);
    }

    method TlsCreate(self: nat, size: uint32) returns (code: int)
      requires Valid() && size + pageSize - 1 < 0x1_0000_0000
      modifies this`buckets, this`index, this`live, table
      ensures Valid() && Extends()
      ensures (Contents(), PrivateArrays.Answer(code, []))
              == PrivateArrays.Effect(old(Contents()), self, PrivateArrays.Create(size))
    {
      hide TableOk, StoragesOk, Snapshot, Inv, Arrays, Content, Created, Zeros, Distinct;
      KeysMatch();
      if size == 0 {
        return -1;
      }
      var e := Find(self);
      assert Storages() == old(Storages());
      if e != null {
        return -1;
      }
      var pageNum := (size + pageSize - 1) / pageSize;
      var pages := AllocatePages(pageNum);
      assert Storages() == old(Storages());
      var tls := Enter(self, size, pageNum, pages);
      live := live + (set p | p in pages);
      CreatedValid(self, tls);
      code := 0;
    }

    /** Everything that a new storage leaves in place. */
    twostate lemma CreatedValid(self: nat, new tls: Tls)
      requires old(Valid()) && Joined(self, tls) && TableOk() && StoragesOk() && AllProtected()
      requires live == old(live) + set p | p in tls.pages
      requires Distinct(tls.pages) && |tls.pages| == PagesFor(tls.size, pageSize)
      requires forall p :: p in old(live) ==>
                 p !in tls.pages && p.mem == old(p.mem) && p.refCount == old(p.refCount)
      requires forall p :: p in tls.pages ==> p.mem == Zeros(pageSize) && p.refCount == 1
      ensures Valid() && Contents() == old(Contents())[self := Zeros(tls.size)]
    {
      hide TableOk, StoragesOk, Snapshot, Inv, Arrays, Content, Created, Zeros, AllProtected, Distinct, PagesFor;
      SnapshotCreated(self, tls);
      SnapshotKeys();
      CreatedArrays(old(Snapshot()), self, tls.size, tls.pages, pageSize);
    }

    twostate lemma SnapshotKeys()
      ensures old(Snapshot()).slots.Keys == old(index).Keys && old(Snapshot()).mem.Keys == old(live)
    {
    }

    /** One more reference to each page. */
    method AddReferences(pages: seq<Page>)
      requires Distinct(pages)
      modifies (set p | p in pages)`refCount
      ensures forall p :: p in pages ==> p.refCount == old(p.refCount) + 1
    {
      var i := 0;
      while i < |pages|
        invariant 0 <= i <= |pages|
        invariant forall j :: 0 <= j < |pages| ==> pages[j].refCount == old(pages[j].refCount) + (if j < i then 1 else 0)
      {
        pages[i].refCount := pages[i].refCount + 1;
        i := i + 1;
      }
    }

    twostate lemma SnapshotCloned(new self: nat, new tls: Tls, new source: nat)
      requires Joined(self, tls) && source in old(index) && live == old(live)
      requires tls.pages == old(index[source].tls.pages) && tls.size == old(index[source].tls.size)
      requires forall p :: p in live ==>
                 p.mem == old(p.mem) && p.refCount == old(p.refCount) + (if p in tls.pages then 1 else 0)
      ensures Snapshot() == Cloned(old(Snapshot()), self, source)
    {
      var s, s' := Cloned(old(Snapshot()), self, source), Snapshot();
      assert s'.slots == s.slots && s'.sizes == s.sizes;
      assert s'.mem == s.mem;
      assert s'.refs == s.refs;
    }

    /** Shares the source's pages with a new storage object for `self`. */
    method Share(self: nat, from: Tls, ghost source: nat)
      requires Valid() && self !in index && source in index && from == index[source].tls
      modifies this`buckets, this`index, table, live`refCount
      ensures Valid() && Extends()
      ensures source in old(Contents()) && Contents() == old(Contents())[self := old(Contents())[source]]
    {
      hide TableOk, StoragesOk, Snapshot, Inv, Arrays, Content, Cloned;
      KeysMatch();
      PagesOf(source);
      OwnPagesLive(source);
      AddReferences(from.pages);
      assert Storages() == old(Storages());
      var tls := Enter(self, from.size, from.pageNum, from.pages);
      SnapshotCloned(self, tls, source);
      SnapshotKeys();
      ClonedArrays(old(Snapshot()), self, source, pageSize);
    }

    method TlsClone(self: nat, source: nat) returns (code: int)
      requires Valid()
      modifies this`buckets, this`index, table, live`refCount
      ensures Valid() && Extends()
      ensures (Contents(), PrivateArrays.Answer(code, []))
              == PrivateArrays.Effect(old(Contents()), self, PrivateArrays.Clone(source))
    {
      hide TableOk, StoragesOk, Snapshot, Inv, Arrays, Content;
      KeysMatch();
      var target := Find(source);
      assert Storages() == old(Storages()) && Snapshot() == old(Snapshot());
      var own := Find(self);
      assert Storages() == old(Storages()) && Snapshot() == old(Snapshot());
      if target == null || own != null {
        return -1;
      }
      Share(self, target.tls, source);
      code := 0;
    }

    // -------------------------------------------------------------- destroying

    /** Walks the bucket of tid, remembering the element before. */
    method FindWithPrevious(tid: nat) returns (e: HashElement?, prev: HashElement?, ghost i: nat)
      requires TableOk()
      ensures e == if tid in index then index[tid] else null
      ensures e != null ==> i < |buckets[Hash(tid)]| && buckets[Hash(tid)][i] == e &&
                            prev == if i == 0 then null else buckets[Hash(tid)][i - 1]
    {
      ghost var list := buckets[Hash(tid)];
      i := 0;
      e, prev := table[Hash(tid)], null;
      while e != null && e.tid != tid
        invariant 0 <= i <= |list| && e == if i < |list| then list[i] else null
        invariant prev == if i == 0 then null else list[i - 1]
        invariant forall j :: 0 <= j < i ==> list[j].tid != tid
        decreases |list| - i
      {
        assert list[i].next == if i + 1 < |list| then list[i + 1] else null;
        prev := e;
        e := e.next;
        i := i + 1;
      }
    }

    /** One reference less to each page; a page without references is unmapped. */
    method DropReferences(pages: seq<Page>)
      requires Distinct(pages)
      modifies (set p | p in pages)`refCount, (set p | p in pages)`mapped
      ensures forall p :: p in pages ==> p.refCount == old(p.refCount) - 1 &&
                                         p.mapped == (old(p.mapped) && old(p.refCount) != 1)
    {
      var i := 0;
      while i < |pages|
        invariant 0 <= i <= |pages|
        invariant forall j :: i <= j < |pages| ==>
                    pages[j].refCount == old(pages[j].refCount) && pages[j].mapped == old(pages[j].mapped)
        invariant forall j :: 0 <= j < i ==>
                    pages[j].refCount == old(pages[j].refCount) - 1 &&
                    pages[j].mapped == (old(pages[j].mapped) && old(pages[j].refCount) != 1)
      {
        var p := pages[i];
        p.refCount := p.refCount - 1;
        if p.refCount == 0 {
          p.mapped := false;
        }
        i := i + 1;
      }
    }

    ghost function Without(list: seq<HashElement>, i: nat): seq<HashElement>
      requires i < |list|
    {
      list[..i] + list[i + 1..]
    }

    twostate lemma UnlinkedBucket(new b: nat, new i: nat)
      requires b < table.Length && b < |buckets| && b < |old(buckets)| && i < |old(buckets)[b]|
      requires buckets[b] == Without(old(buckets)[b], i) && old(Linked(b)) && Distinct(old(buckets)[b])
      requires table[b] == if i == 0 then old(buckets[b][i].next) else old(table[b])
      requires forall j :: 0 <= j < |old(buckets)[b]| && j != i - 1 ==> old(buckets)[b][j].next == old(buckets[b][j].next)
      requires i > 0 ==> old(buckets)[b][i - 1].next == old(buckets[b][i].next)
      ensures Linked(b)
    {
      var list, was := buckets[b], old(buckets)[b];
      assert old(was[i].next) == if i + 1 < |was| then was[i + 1] else null;
      forall j | 0 <= j < |list| ensures list[j].next == if j + 1 < |list| then list[j + 1] else null {
        var k := if j < i then j else j + 1;
        assert list[j] == was[k];
        assert old(was[k].next) == if k + 1 < |was| then was[k + 1] else null;
      }
    }

    twostate lemma UnlinkedIndex(new self: nat, new i: nat)
      requires old(TableOk()) && self in old(index) && index == old(index) - {self}
      requires i < |old(buckets)[Hash(self)]| && old(buckets)[Hash(self)][i] == old(index)[self]
      requires buckets == old(buckets)[Hash(self) := Without(old(buckets)[Hash(self)], i)]
      ensures forall b, j :: 0 <= b < HASH_SIZE && 0 <= j < |buckets[b]| ==>
                var e := buckets[b][j]; e.tid in index && index[e.tid] == e && Hash(e.tid) == b
      ensures forall t :: t in index ==> index[t].tid == t && index[t] in buckets[Hash(t)]
    {
      hide Linked;
      var h := Hash(self);
      var was := old(buckets)[h];
      forall b, j | 0 <= b < HASH_SIZE && 0 <= j < |buckets[b]|
        ensures var e := buckets[b][j]; e.tid in index && index[e.tid] == e && Hash(e.tid) == b
      {
        if b == h {
          var k := if j < i then j else j + 1;
          assert buckets[b][j] == was[k];
          assert old(index)[was[k].tid] == was[k];
        } else {
          assert buckets[b][j] == old(buckets)[b][j];
        }
      }
      forall t | t in index ensures index[t].tid == t && index[t] in buckets[Hash(t)] {
        if Hash(t) == h {
          var j :| 0 <= j < |was| && was[j] == index[t];
          assert Without(was, i)[if j < i then j else j - 1] == index[t];
        }
      }
    }

    twostate lemma UnlinkedTable(new self: nat, new i: nat)
      requires old(TableOk()) && self in old(index) && index == old(index) - {self}
      requires i < |old(buckets)[Hash(self)]| && old(buckets)[Hash(self)][i] == old(index)[self]
      requires buckets == old(buckets)[Hash(self) := Without(old(buckets)[Hash(self)], i)]
      requires forall b :: 0 <= b < HASH_SIZE && b != Hash(self) ==> table[b] == old(table[b])
      requires table[Hash(self)] == if i == 0 then old(index[self].next) else old(table[Hash(self)])
      requires i > 0 ==> old(buckets)[Hash(self)][i - 1].next == old(index[self].next)
      requires forall x :: x in old(index.Values) && (i > 0 ==> x != old(buckets)[Hash(self)][i - 1]) ==> x.next == old(x.next)
      ensures TableOk()
    {
      hide Linked;
      UnlinkedIndex(self, i);
      var h := Hash(self);
      forall b | 0 <= b < HASH_SIZE ensures Distinct(buckets[b]) && Linked(b) {
        forall j | 0 <= j < |old(buckets)[b]| ensures old(buckets)[b][j] in old(index.Values) {
          assert old(index)[old(buckets)[b][j].tid] == old(buckets)[b][j];
        }
        if b == h {
          UnlinkedBucket(b, i);
        } else {
          forall j | 0 <= j < |buckets[b]| ensures buckets[b][j].next == old(buckets[b][j].next) {
            assert Hash(buckets[b][j].tid) == b;
          }
          SameBucket(b);
        }
      }
    }

    twostate lemma StoragesLeft(self: nat)
      requires old(StoragesOk()) && self in old(index) && index == old(index) - {self}
      requires forall u :: u in index ==> index[u].tls.pages == old(index[u].tls.pages)
      ensures StoragesOk()
    {
    }

    twostate lemma SnapshotDestroyed(self: nat)
      requires self in old(index) && index == old(index) - {self}
      requires forall u :: u in index ==> index[u].tls.pages == old(index[u].tls.pages)
      requires live == old(live) - old(set p | p in index[self].tls.pages && p.refCount == 1)
      requires forall p :: p in old(index[self].tls.pages) ==> p in old(live)
      requires forall p :: p in live ==>
                 p.mem == old(p.mem) &&
                 p.refCount == old(p.refCount) - (if p in old(index[self].tls.pages) then 1 else 0)
      ensures self in old(Snapshot()).slots && Snapshot() == Destroyed(old(Snapshot()), self)
    {
      var s, s' := old(Snapshot()), Snapshot();
      assert s.slots[self] == old(index[self].tls.pages);
      assert Sole(s, self) == old(set p | p in index[self].tls.pages && p.refCount == 1);
      assert s'.slots == s.slots - {self} && s'.sizes == s.sizes - {self};
      assert s'.mem == s.mem - Sole(s, self);
      assert s'.refs == Destroyed(s, self).refs;
    }

    /** Drops one reference to each of the thread's pages and forgets those without any. */
    method ReleasePages(tls: Tls, ghost self: nat)
      requires self in index && tls == index[self].tls && Distinct(tls.pages) && AllProtected()
      requires forall p :: p in tls.pages ==> p in live
      modifies this`live, live`refCount, live`mapped
      ensures AllProtected() && live == old(live) - old(set p | p in index[self].tls.pages && p.refCount == 1)
      ensures forall p :: p in old(live) ==> (p in live <==> p.mapped)
      ensures forall p :: p in live ==> p.refCount == old(p.refCount) - (if p in tls.pages then 1 else 0)
    {
      DropReferences(tls.pages);
      live := live - old(set p | p in index[self].tls.pages && p.refCount == 1);
    }

    /** Everything that a thread's release leaves in place. */
    twostate lemma ReleasedValid(self: nat)
      requires old(Valid()) && self in old(index) && index == old(index) - {self}
      requires TableOk() && AllProtected()
      requires forall u :: u in index ==> index[u].tls.pages == old(index[u].tls.pages)
      requires live == old(live) - old(set p | p in index[self].tls.pages && p.refCount == 1)
      requires forall p :: p in old(index[self].tls.pages) ==> p in old(live)
      requires forall p :: p in live ==>
                 p.mem == old(p.mem) &&
                 p.refCount == old(p.refCount) - (if p in old(index[self].tls.pages) then 1 else 0)
      ensures Valid() && Contents() == old(Contents()) - {self}
    {
      hide TableOk, StoragesOk, Snapshot, Inv, Arrays, Destroyed, AllProtected;
      StoragesLeft(self);
      SnapshotDestroyed(self);
      DestroyedArrays(old(Snapshot()), self, pageSize);
    }

    /** Releases the thread's pages and takes its element out of the table. */
    method Release(e: HashElement, prev: HashElement?, ghost self: nat, ghost i: nat)
      requires Valid() && self in index && e == index[self] && i < |buckets[Hash(self)]|
      requires buckets[Hash(self)][i] == e && prev == if i == 0 then null else buckets[Hash(self)][i - 1]
      modifies this`buckets, this`index, this`live, table, index.Values`next, live`refCount, live`mapped
      ensures Valid() && Contents() == old(Contents()) - {self}
      ensures index == old(index) - {self} && live <= old(live)
      ensures forall p :: p in old(live) ==> (p in live <==> p.mapped)
    {
      hide TableOk, StoragesOk, Snapshot, Inv, Arrays, Content, Destroyed, AllProtected, Distinct;
      PagesOf(self);
      OwnPagesLive(self);
      ReleasePages(e.tls, self);
      Unlink(e, prev, self, i);
      ReleasedValid(self);
    }

    method TlsDestroy(self: nat) returns (code: int)
      requires Valid()
      modifies this`buckets, this`index, this`live, table, index.Values`next, live`refCount, live`mapped
      ensures Valid() && Extends()
      ensures (Contents(), PrivateArrays.Answer(code, []))
              == PrivateArrays.Effect(old(Contents()), self, PrivateArrays.Destroy)
      ensures forall p :: p in old(live) ==> (p in live <==> p.mapped)
    {
      hide TableOk, StoragesOk, Snapshot, Inv, Arrays, Content;
      KeysMatch();
      var e, prev, i := FindWithPrevious(self);
      assert Storages() == old(Storages());
      if e == null {
        return -1;
      }
      BucketsThere();
      Release(e, prev, self, i);
      code := 0;
    }

    lemma BucketsThere()
      requires TableOk()
      ensures |buckets| == HASH_SIZE
    {
    }

    /** Takes element e, found at place i of its bucket, out of the table. */
    method Unlink(e: HashElement, prev: HashElement?, ghost self: nat, ghost i: nat)
      requires TableOk() && self in index && e == index[self] && i < |buckets[Hash(self)]|
      requires buckets[Hash(self)][i] == e && prev == if i == 0 then null else buckets[Hash(self)][i - 1]
      modifies this`buckets, this`index, table, index.Values`next
      ensures TableOk() && index == old(index) - {self}
    {
      if prev != null {
        prev.next := e.next;
      } else {
        table[Hash(e.tid)] := e.next;
      }
      buckets := buckets[Hash(self) := Without(buckets[Hash(self)], i)];
      index := index - {self};
      UnlinkedTable(self, i);
    }

    // -------------------------------------------------------------- between the calls

    /** Between calls every mapped page is protected and counts exactly the threads that use it;
        the pages of one thread are distinct and mapped. */
    lemma CountsAreExact()
      requires Valid()
      ensures forall p :: p in live ==>
                p.mapped && p.locked && p.refCount == |Users(p)| && Users(p) != {}
      ensures forall t :: t in index ==>
                Distinct(index[t].tls.pages) && forall p :: p in index[t].tls.pages ==> p in live
    {
      var s := Snapshot();
      forall p | p in live ensures p.refCount == |Users(p)| && Users(p) != {} {
        assert p in s.mem && s.refs[p] == p.refCount;
        assert Holders(s, p) == Users(p);
      }
      forall t | t in index ensures Distinct(index[t].tls.pages) && forall p :: p in index[t].tls.pages ==> p in live {
        OwnPagesLive(t);
        assert s.slots[t] == index[t].tls.pages;
      }
    }

    /** Threads whose storage refers to the page. */
    ghost function Users(p: Page): set<nat>
      reads this`index, Storages()`pages
    {
      set t | t in index && p in index[t].tls.pages
    }

    /** The sums that the library computes in 32 bits do not wrap around. */
    predicate NoWrap(call: PrivateArrays.Call) {
      match call
      case Create(size) => size + pageSize - 1 < 0x1_0000_0000
      case Read(offset, length) => offset + length < 0x1_0000_0000
      case Write(offset, data) => offset + |data| < 0x1_0000_0000
      case _ => true
    }

    twostate lemma ExtendsRepr()
      requires Extends()
      ensures fresh(Repr() - old(Repr()))
    {
      forall o | o in Repr() && o !in old(Repr()) ensures fresh(o) {
      }
    }

    /** Any call by any thread does what it would do on private arrays. */
    method Serve(request: PrivateArrays.Request) returns (answer: PrivateArrays.Answer)
      requires Valid() && NoWrap(request.call)
      modifies Repr()
      ensures Valid() && fresh(Repr() - old(Repr()))
      ensures (Contents(), answer) == PrivateArrays.Effect(old(Contents()), request.self, request.call)
    {
      hide TableOk, StoragesOk, Snapshot, Inv, Arrays, AllProtected, PrivateArrays.Effect;
      var code, data := 0, [];
      match request.call {
        case Create(size) => code := TlsCreate(request.self, size);
        case Destroy => code := TlsDestroy(request.self);
        case Read(offset, length) => code, data := TlsRead(request.self, offset, length);
        case Write(offset, bytes) => code := TlsWrite(request.self, offset, bytes);
        case Clone(source) => code := TlsClone(request.self, source);
      }
      ExtendsRepr();
      answer := PrivateArrays.Answer(code, data);
    }

    /** Every sequence of calls by any threads behaves as on private arrays, and from the start
        every answer is the one that the history of accepted calls asks for. */
    method ServeAll(requests: seq<PrivateArrays.Request>) returns (answers: seq<PrivateArrays.Answer>)
      requires Valid() && forall k :: 0 <= k < |requests| ==> NoWrap(requests[k].call)
      modifies Repr()
      ensures Valid() && fresh(Repr() - old(Repr()))
      ensures (Contents(), answers) == PrivateArrays.Run(old(Contents()), requests)
      ensures |answers| == |requests|
      ensures old(Contents()) == map[] ==>
                forall k :: 0 <= k < |requests| ==>
                  PrivateArrays.AnsweredAs(PrivateArrays.History(requests, answers)[..k],
                                           requests[k].self, requests[k].call, answers[k])
      decreases |requests|
    {
      PrivateArrays.FromStart(requests);
      answers := ServeEach(requests);
    }

    method ServeEach(requests: seq<PrivateArrays.Request>) returns (answers: seq<PrivateArrays.Answer>)
      requires Valid() && forall k :: 0 <= k < |requests| ==> NoWrap(requests[k].call)
      modifies Repr()
      ensures Valid() && fresh(Repr() - old(Repr()))
      ensures (Contents(), answers) == PrivateArrays.Run(old(Contents()), requests) && |answers| == |requests|
      decreases |requests|
    {
      hide TableOk, StoragesOk, Snapshot, Inv, Arrays, AllProtected, PrivateArrays.Effect;
      if requests == [] {
        return [];
      }
      var first := Serve(requests[0]);
      var rest := ServeEach(requests[1..]);
      answers := [first] + rest;
    }
  }
}
