/** Reference-counted pages as values: what sharing, splitting and releasing pages do to the
    private byte arrays that the threads believe they have. */
module CopyOnWrite {
  import opened Bytes
  import opened Collections

  /** Pages by number, the slots of each thread, the sizes asked for, and the live pages'
      bytes and reference counts. */
  datatype Store<P> = Store(
    slots: map<nat, seq<P>>, sizes: map<nat, nat>, mem: map<P, seq<byte>>, refs: map<P, int>)

  function Poke(m: seq<byte>, i: nat, b: byte): (r: seq<byte>)
    requires i < |m|
    ensures |r| == |m|
  {
    m[i := b]
  }

  function PagesFor(size: nat, ps: nat): nat
    requires ps > 0
  {
    (size + ps - 1) / ps
  }

  ghost function Holders<P>(s: Store<P>, p: P): set<nat> {
    set t | t in s.slots && p in s.slots[t]
  }

  /** Slots have the right number of distinct live pages. */
  ghost predicate SlotsOk<P>(s: Store<P>, ps: nat)
    requires ps > 0
  {
    s.slots.Keys == s.sizes.Keys &&
    forall t :: t in s.slots ==>
      |s.slots[t]| == PagesFor(s.sizes[t], ps) && Distinct(s.slots[t]) &&
      forall k :: 0 <= k < |s.slots[t]| ==> s.slots[t][k] in s.mem
  }

  lemma SlotLive<P>(s: Store<P>, ps: nat, t: nat, p: P)
    requires ps > 0 && SlotsOk(s, ps) && t in s.slots && p in s.slots[t]
    ensures p in s.mem
  {
  }

  /** Reference counts are exact, and only referenced pages are live. */
  ghost predicate CountsOk<P>(s: Store<P>) {
    s.refs.Keys == s.mem.Keys &&
    forall p :: p in s.mem ==> s.refs[p] == |Holders(s, p)| && s.refs[p] >= 1
  }

  ghost predicate PagesOk<P>(s: Store<P>, ps: nat) {
    forall p :: p in s.mem ==> |s.mem[p]| == ps
  }

  ghost predicate Inv<P>(s: Store<P>, ps: nat) {
    ps > 0 && SlotsOk(s, ps) && CountsOk(s) && PagesOk(s, ps)
  }

  /** The page that position j falls in, and the place in that page. */
  function PageOf(j: nat, ps: nat): nat
    requires ps > 0
  {
    j / ps
  }

  function OffsetOf(j: nat, ps: nat): nat
    requires ps > 0
  {
    j % ps
  }

  lemma MulMonotone(a: nat, b: nat, ps: nat)
    requires a >= b
    ensures a * ps >= b * ps
  {
  }

  lemma PositionInRange(j: nat, size: nat, ps: nat)
    requires ps > 0 && j < size
    ensures PageOf(j, ps) < PagesFor(size, ps) && OffsetOf(j, ps) < ps
  {
    var a, b := j / ps, PagesFor(size, ps);
    assert j == a * ps + j % ps;
    assert size + ps - 1 == b * ps + (size + ps - 1) % ps;
    if a >= b {
      MulMonotone(a, b, ps);
    }
  }

  lemma PositionUnique(i: nat, j: nat, ps: nat)
    requires ps > 0 && PageOf(i, ps) == PageOf(j, ps) && OffsetOf(i, ps) == OffsetOf(j, ps)
    ensures i == j
  {
  }

  ghost function ByteOf<P>(s: Store<P>, ps: nat, t: nat, j: nat): byte
    requires Inv(s, ps) && t in s.slots && j < s.sizes[t]
  {
    PositionInRange(j, s.sizes[t], ps);
    s.mem[s.slots[t][PageOf(j, ps)]][OffsetOf(j, ps)]
  }

  /** The private array of thread t. */
  ghost function Content<P>(s: Store<P>, ps: nat, t: nat): (c: seq<byte>)
    requires Inv(s, ps) && t in s.slots
    ensures |c| == s.sizes[t]
  {
    seq(s.sizes[t], j requires 0 <= j < s.sizes[t] => ByteOf(s, ps, t, j))
  }

  /** Every thread's private array. */
  ghost function Arrays<P>(s: Store<P>, ps: nat): map<nat, seq<byte>>
    requires Inv(s, ps)
  {
    map t | t in s.slots :: Content(s, ps, t)
  }

  lemma SameContent<P>(s: Store<P>, s': Store<P>, ps: nat, t: nat, t': nat)
    requires Inv(s, ps) && Inv(s', ps) && t in s.slots && t' in s'.slots
    requires s.sizes[t] == s'.sizes[t'] && |s.slots[t]| == |s'.slots[t']|
    requires forall k :: 0 <= k < |s.slots[t]| ==> s.mem[s.slots[t][k]] == s'.mem[s'.slots[t'][k]]
    ensures Content(s, ps, t) == Content(s', ps, t')
  {
    hide PagesFor, PageOf, OffsetOf;
    forall j | 0 <= j < s.sizes[t] ensures ByteOf(s, ps, t, j) == ByteOf(s', ps, t', j) {
      PositionInRange(j, s.sizes[t], ps);
    }
  }

  lemma ArraysUpdate<P>(s: Store<P>, s': Store<P>, ps: nat, t: nat, c: seq<byte>)
    requires Inv(s, ps) && Inv(s', ps) && s'.slots.Keys == s.slots.Keys + {t}
    requires Content(s', ps, t) == c
    requires forall u :: u in s.slots && u != t ==> Content(s', ps, u) == Content(s, ps, u)
    ensures Arrays(s', ps) == Arrays(s, ps)[t := c]
  {
    hide Inv, Content;
  }

  // ---------------------------------------------------------------- creating

  function Created<P>(s: Store<P>, t: nat, size: nat, added: seq<P>, ps: nat): Store<P> {
    Store(s.slots[t := added], s.sizes[t := size],
          s.mem + (map p | p in added :: Zeros(ps)), s.refs + (map p | p in added :: 1))
  }

  lemma CreatedHolders<P>(s: Store<P>, t: nat, size: nat, added: seq<P>, ps: nat, p: P)
    requires Inv(s, ps) && t !in s.slots && forall q :: q in added ==> q !in s.mem
    ensures Holders(Created(s, t, size, added, ps), p) == if p in added then {t} else Holders(s, p)
  {
    hide PagesFor;
    var s' := Created(s, t, size, added, ps);
    forall u | u in s.slots && p in added ensures p !in s.slots[u] {
      if p in s.slots[u] {
        SlotLive(s, ps, u, p);
      }
    }
  }

  lemma CreatedSlots<P>(s: Store<P>, t: nat, size: nat, added: seq<P>, ps: nat)
    requires Inv(s, ps) && t !in s.slots && Distinct(added) && |added| == PagesFor(size, ps)
    ensures SlotsOk(Created(s, t, size, added, ps), ps) && PagesOk(Created(s, t, size, added, ps), ps)
  {
    hide PagesFor, Distinct, CountsOk;
  }

  lemma CreatedInv<P>(s: Store<P>, t: nat, size: nat, added: seq<P>, ps: nat)
    requires Inv(s, ps) && t !in s.slots && Distinct(added) && |added| == PagesFor(size, ps)
    requires forall p :: p in added ==> p !in s.mem
    ensures Inv(Created(s, t, size, added, ps), ps)
  {
    hide SlotsOk, PagesOk, PagesFor, Distinct, Holders;
    var s' := Created(s, t, size, added, ps);
    CreatedSlots(s, t, size, added, ps);
    forall p | p in s'.mem
      ensures s'.refs[p] == |Holders(s', p)| && s'.refs[p] >= 1
    {
      CreatedHolders(s, t, size, added, ps, p);
    }
  }

  lemma CreatedContent<P>(s: Store<P>, t: nat, size: nat, added: seq<P>, ps: nat)
    requires Inv(s, ps) && Inv(Created(s, t, size, added, ps), ps) && |added| == PagesFor(size, ps)
    ensures Content(Created(s, t, size, added, ps), ps, t) == Zeros(size)
  {
    hide PageOf, OffsetOf, PagesFor;
    var s' := Created(s, t, size, added, ps);
    forall j | 0 <= j < size ensures ByteOf(s', ps, t, j) == 0 {
      PositionInRange(j, size, ps);
    }
  }

  lemma CreatedArrays<P>(s: Store<P>, t: nat, size: nat, added: seq<P>, ps: nat)
    requires Inv(s, ps) && t !in s.slots && Distinct(added) && |added| == PagesFor(size, ps)
    requires forall p :: p in added ==> p !in s.mem
    ensures Inv(Created(s, t, size, added, ps), ps)
    ensures Arrays(Created(s, t, size, added, ps), ps) == Arrays(s, ps)[t := Zeros(size)]
  {
    hide PagesFor, PageOf, OffsetOf;
    var s' := Created(s, t, size, added, ps);
    CreatedInv(s, t, size, added, ps);
    CreatedContent(s, t, size, added, ps);
    forall u | u in s.slots ensures Content(s', ps, u) == Content(s, ps, u) {
      CreatedOther(s, t, size, added, ps, u);
    }
    ArraysUpdate(s, s', ps, t, Zeros(size));
  }

  lemma CreatedOther<P>(s: Store<P>, t: nat, size: nat, added: seq<P>, ps: nat, u: nat)
    requires Inv(s, ps) && Inv(Created(s, t, size, added, ps), ps) && u in s.slots && u != t
    requires forall p :: p in added ==> p !in s.mem
    ensures Content(Created(s, t, size, added, ps), ps, u) == Content(s, ps, u)
  {
    hide PagesFor, PageOf, OffsetOf;
    SameContent(s, Created(s, t, size, added, ps), ps, u, u);
  }

  // ---------------------------------------------------------------- cloning

  function Cloned<P>(s: Store<P>, t: nat, source: nat): Store<P>
    requires source in s.slots && source in s.sizes
  {
    Store(s.slots[t := s.slots[source]], s.sizes[t := s.sizes[source]], s.mem,
          map p | p in s.refs :: s.refs[p] + (if p in s.slots[source] then 1 else 0))
  }

  lemma ClonedSlots<P>(s: Store<P>, t: nat, source: nat, ps: nat)
    requires Inv(s, ps) && t !in s.slots && source in s.slots
    ensures source in s.sizes && SlotsOk(Cloned(s, t, source), ps) && PagesOk(Cloned(s, t, source), ps)
  {
    hide PagesFor, Distinct, CountsOk;
  }

  lemma ClonedInv<P>(s: Store<P>, t: nat, source: nat, ps: nat)
    requires Inv(s, ps) && t !in s.slots && source in s.slots
    ensures source in s.sizes && Inv(Cloned(s, t, source), ps)
  {
    hide SlotsOk, PagesOk, PagesFor, Distinct;
    ClonedSlots(s, t, source, ps);
    var s' := Cloned(s, t, source);
    forall p | p in s'.mem
      ensures s'.refs[p] == |Holders(s', p)| && s'.refs[p] >= 1
    {
      assert Holders(s', p) == Holders(s, p) + (if p in s.slots[source] then {t} else {});
    }
  }

  lemma ClonedArrays<P>(s: Store<P>, t: nat, source: nat, ps: nat)
    requires Inv(s, ps) && t !in s.slots && source in s.slots
    ensures Inv(Cloned(s, t, source), ps)
    ensures Arrays(Cloned(s, t, source), ps) == Arrays(s, ps)[t := Arrays(s, ps)[source]]
  {
    hide Inv, Content;
    SlotKeys(s, ps);
    var s' := Cloned(s, t, source);
    ClonedInv(s, t, source, ps);
    SameContent(s, s', ps, source, t);
    forall u | u in s.slots ensures Content(s', ps, u) == Content(s, ps, u) {
      SameContent(s, s', ps, u, u);
    }
    ArraysUpdate(s, s', ps, t, Content(s, ps, source));
  }

  lemma SlotKeys<P>(s: Store<P>, ps: nat)
    requires Inv(s, ps)
    ensures s.slots.Keys == s.sizes.Keys && s.refs.Keys == s.mem.Keys
    ensures forall t, k :: t in s.slots && 0 <= k < |s.slots[t]| ==> s.slots[t][k] in s.mem
  {
  }

  // ---------------------------------------------------------------- destroying

  /** Pages that only thread t refers to. */
  ghost function Sole<P>(s: Store<P>, t: nat): set<P>
    requires t in s.slots && s.refs.Keys == s.mem.Keys
  {
    set p | p in s.slots[t] && p in s.refs && s.refs[p] == 1
  }

  ghost function Destroyed<P>(s: Store<P>, t: nat): Store<P>
    requires t in s.slots && s.refs.Keys == s.mem.Keys
  {
    Store(s.slots - {t}, s.sizes - {t}, s.mem - Sole(s, t),
          map p | p in s.refs && p !in Sole(s, t) :: s.refs[p] - (if p in s.slots[t] then 1 else 0))
  }

  lemma SoleHolder<P>(s: Store<P>, t: nat, p: P)
    requires CountsOk(s) && t in s.slots && p in s.slots[t] && p in s.mem
    ensures s.refs[p] == 1 <==> Holders(s, p) == {t}
  {
    hide PagesFor;
    assert t in Holders(s, p);
    if s.refs[p] == 1 {
      assert |Holders(s, p) - {t}| == 0;
    }
  }

  lemma DestroyedArrays<P>(s: Store<P>, t: nat, ps: nat)
    requires Inv(s, ps) && t in s.slots
    ensures Inv(Destroyed(s, t), ps)
    ensures Arrays(Destroyed(s, t), ps) == Arrays(s, ps) - {t}
  {
    hide PagesFor, PageOf, OffsetOf;
    var s' := Destroyed(s, t);
    forall u, k | u in s'.slots && 0 <= k < |s'.slots[u]| ensures s'.slots[u][k] in s'.mem {
      var p := s'.slots[u][k];
      assert u in Holders(s, p);
      if p in s.slots[t] {
        SoleHolder(s, t, p);
      }
    }
    forall p | p in s'.mem
      ensures s'.refs[p] == |Holders(s', p)| && s'.refs[p] >= 1
    {
      if p in s.slots[t] {
        assert Holders(s', p) == Holders(s, p) - {t};
      } else {
        assert Holders(s', p) == Holders(s, p);
      }
    }
    forall u | u in s'.slots ensures Content(s', ps, u) == Content(s, ps, u) {
      SameContent(s, s', ps, u, u);
    }
  }

  // ---------------------------------------------------------------- writing one byte

  lemma ReplacedMembers<P>(c: seq<P>, k: nat, q: P)
    requires Distinct(c) && k < |c|
    ensures forall x :: x in c[k := q] <==> x == q || (x in c && x != c[k])
  {
    forall x | x in c && x != c[k] ensures x in c[k := q] {
      var i :| 0 <= i < |c| && c[i] == x;
      assert c[k := q][i] == x;
    }
    assert c[k := q][k] == q;
  }

  /** Page k of thread t is its own: shared, it is first copied to q. */
  function Split<P>(s: Store<P>, t: nat, k: nat, q: P): Store<P>
    requires t in s.slots && k < |s.slots[t]| && s.slots[t][k] in s.mem && s.slots[t][k] in s.refs
  {
    var p := s.slots[t][k];
    if s.refs[p] > 1 then
      s.(slots := s.slots[t := s.slots[t][k := q]], mem := s.mem[q := s.mem[p]],
         refs := s.refs[p := s.refs[p] - 1][q := 1])
    else s
  }

  /** Thread t stores b at byte `off` of its page k; a shared page is first copied to q. */
  function Stored<P>(s: Store<P>, t: nat, k: nat, off: nat, b: byte, q: P): Store<P>
    requires t in s.slots && k < |s.slots[t]|
    requires s.slots[t][k] in s.mem && s.slots[t][k] in s.refs && off < |s.mem[s.slots[t][k]]|
  {
    var own := Split(s, t, k, q);
    var p := own.slots[t][k];
    own.(mem := own.mem[p := Poke(own.mem[p], off, b)])
  }

  /** Splitting a shared page moves one holder from the page to its copy. */
  lemma SplitHolders<P>(s: Store<P>, t: nat, k: nat, q: P, x: P, ps: nat)
    requires Inv(s, ps) && t in s.slots && k < |s.slots[t]| && q !in s.mem && s.refs[s.slots[t][k]] > 1
    ensures var s', p := Split(s, t, k, q), s.slots[t][k];
            Holders(s', x) == if x == q then {t} else if x == p then Holders(s, p) - {t} else Holders(s, x)
  {
    hide PagesFor;
    var s', p := Split(s, t, k, q), s.slots[t][k];
    ReplacedMembers(s.slots[t], k, q);
    forall u | u in s.slots && q in s.slots[u] ensures false {
      SlotLive(s, ps, u, q);
    }
  }

  lemma SplitSlots<P>(s: Store<P>, t: nat, k: nat, q: P, ps: nat)
    requires Inv(s, ps) && t in s.slots && k < |s.slots[t]| && q !in s.mem
    ensures SlotsOk(Split(s, t, k, q), ps)
  {
    hide PagesFor;
    forall i | 0 <= i < |s.slots[t]| ensures s.slots[t][i] != q {
      assert s.slots[t][i] in s.mem;
    }
  }

  lemma SplitInv<P>(s: Store<P>, t: nat, k: nat, q: P, ps: nat)
    requires Inv(s, ps) && t in s.slots && k < |s.slots[t]| && q !in s.mem && s.refs[s.slots[t][k]] > 1
    ensures Inv(Split(s, t, k, q), ps)
  {
    hide SlotsOk, PagesFor, Distinct;
    SlotKeys(s, ps);
    SplitSlots(s, t, k, q, ps);
    var own, p := Split(s, t, k, q), s.slots[t][k];
    assert t in Holders(s, p);
    forall x | x in own.mem ensures own.refs[x] == |Holders(own, x)| && own.refs[x] >= 1 {
      SplitHolders(s, t, k, q, x, ps);
    }
  }

  /** The invariant does not look at the bytes. */
  lemma PokedInv<P>(s: Store<P>, p: P, m: seq<byte>, ps: nat)
    requires Inv(s, ps) && p in s.mem && |m| == ps
    ensures Inv(s.(mem := s.mem[p := m]), ps)
  {
    hide PagesFor, Distinct;
    assert forall x :: Holders(s.(mem := s.mem[p := m]), x) == Holders(s, x);
  }

  lemma StoredInv<P>(s: Store<P>, t: nat, k: nat, off: nat, b: byte, q: P, ps: nat)
    requires Inv(s, ps) && t in s.slots && k < |s.slots[t]| && off < ps
    requires s.refs[s.slots[t][k]] > 1 ==> q !in s.mem
    ensures Inv(Stored(s, t, k, off, b, q), ps)
  {
    hide PagesFor, Distinct, Holders, Inv, SlotsOk;
    PageThere(s, t, k, ps);
    var own := Split(s, t, k, q);
    if s.refs[s.slots[t][k]] > 1 {
      SplitInv(s, t, k, q, ps);
    }
    var p := own.slots[t][k];
    PageThere(own, t, k, ps);
    PokedInv(own, p, Poke(own.mem[p], off, b), ps);
  }

  lemma PageThere<P>(s: Store<P>, t: nat, k: nat, ps: nat)
    requires Inv(s, ps) && t in s.slots && k < |s.slots[t]|
    ensures s.slots[t][k] in s.mem && s.slots[t][k] in s.refs && |s.mem[s.slots[t][k]]| == ps
  {
    hide PagesFor, Distinct;
  }

  lemma StoredByte<P>(s: Store<P>, t: nat, pos: nat, k: nat, off: nat, b: byte, q: P, ps: nat, j: nat)
    requires Inv(s, ps) && t in s.slots && pos < s.sizes[t] && k < |s.slots[t]| && off < ps
    requires k == PageOf(pos, ps) && off == OffsetOf(pos, ps) && Inv(Stored(s, t, k, off, b, q), ps)
    requires s.refs[s.slots[t][k]] > 1 ==> q !in s.mem
    requires j < s.sizes[t]
    ensures ByteOf(Stored(s, t, k, off, b, q), ps, t, j) == if j == pos then b else ByteOf(s, ps, t, j)
  {
    hide PageOf, OffsetOf, PagesFor, CountsOk, Holders;
    PositionInRange(j, s.sizes[t], ps);
    var i := PageOf(j, ps);
    if i == k {
      if OffsetOf(j, ps) == off {
        PositionUnique(j, pos, ps);
      }
    } else {
      assert s.slots[t][i] != s.slots[t][k] && s.slots[t][i] in s.mem;
    }
  }

  lemma StoredOwn<P>(s: Store<P>, t: nat, pos: nat, k: nat, off: nat, b: byte, q: P, ps: nat)
    requires Inv(s, ps) && t in s.slots && pos < s.sizes[t] && k < |s.slots[t]| && off < ps
    requires k == PageOf(pos, ps) && off == OffsetOf(pos, ps) && Inv(Stored(s, t, k, off, b, q), ps)
    requires s.refs[s.slots[t][k]] > 1 ==> q !in s.mem
    ensures Content(Stored(s, t, k, off, b, q), ps, t) == Poke(Content(s, ps, t), pos, b)
  {
    hide Inv, ByteOf, PageOf, OffsetOf;
    StoredSizes(s, t, k, off, b, q, ps);
    forall j | 0 <= j < s.sizes[t]
      ensures ByteOf(Stored(s, t, k, off, b, q), ps, t, j) == if j == pos then b else ByteOf(s, ps, t, j)
    {
      StoredByte(s, t, pos, k, off, b, q, ps, j);
    }
  }

  lemma StoredSizes<P>(s: Store<P>, t: nat, k: nat, off: nat, b: byte, q: P, ps: nat)
    requires Inv(s, ps) && t in s.slots && k < |s.slots[t]| && off < ps
    ensures s.slots[t][k] in s.mem && s.slots[t][k] in s.refs && off < |s.mem[s.slots[t][k]]|
    ensures Stored(s, t, k, off, b, q).sizes == s.sizes && t in Stored(s, t, k, off, b, q).slots && t in s.sizes
  {
  }

  lemma StoredOther<P>(s: Store<P>, t: nat, k: nat, off: nat, b: byte, q: P, ps: nat, u: nat)
    requires Inv(s, ps) && t in s.slots && k < |s.slots[t]| && off < ps && u in s.slots && u != t
    requires Inv(Stored(s, t, k, off, b, q), ps)
    requires s.refs[s.slots[t][k]] > 1 ==> q !in s.mem
    ensures Content(Stored(s, t, k, off, b, q), ps, u) == Content(s, ps, u)
  {
    hide PagesFor, PageOf, OffsetOf;
    var s', p := Stored(s, t, k, off, b, q), s.slots[t][k];
    if s.refs[p] == 1 {
      SoleHolder(s, t, p);
      assert u !in Holders(s, p);
    }
    SameContent(s, s', ps, u, u);
  }

  /** Only the writer's array changes, and only in the one byte. */
  lemma StoredArrays<P>(s: Store<P>, t: nat, pos: nat, k: nat, off: nat, b: byte, q: P, ps: nat)
    requires Inv(s, ps) && t in s.slots && pos < s.sizes[t] && k < |s.slots[t]| && off < ps
    requires k == PageOf(pos, ps) && off == OffsetOf(pos, ps)
    requires s.refs[s.slots[t][k]] > 1 ==> q !in s.mem
    ensures Inv(Stored(s, t, k, off, b, q), ps)
    ensures Arrays(Stored(s, t, k, off, b, q), ps) == Arrays(s, ps)[t := Poke(Arrays(s, ps)[t], pos, b)]
  {
    hide PagesFor, PageOf, OffsetOf;
    StoredInv(s, t, k, off, b, q, ps);
    var s' := Stored(s, t, k, off, b, q);
    StoredOwn(s, t, pos, k, off, b, q, ps);
    forall u | u in s.slots && u != t ensures Content(s', ps, u) == Content(s, ps, u) {
      StoredOther(s, t, k, off, b, q, ps, u);
    }
    ArraysUpdate(s, s', ps, t, Poke(Content(s, ps, t), pos, b));
  }
}
