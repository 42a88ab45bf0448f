/** Following the links of an arbitrary allocation table, cyclic or not. */
module Reachability {
  import opened Bytes
  import opened Volumes

  predicate Terminal(b: uint32) {
    b == FAT_EOF || b == FAT_FREE
  }

  /** The block reached after n links from b, stopping at a terminal mark. */
  function Hop(fat: seq<uint32>, b: uint32, n: nat): uint32
    decreases n
  {
    if n == 0 || Terminal(b) || b >= |fat| then b else Hop(fat, fat[b], n - 1)
  }

  /** x is a block on the path of links that leaves from `start`. */
  ghost predicate Reaches(fat: seq<uint32>, start: uint32, x: nat) {
    exists n: nat :: OnPath(fat, start, x, n)
  }

  ghost predicate OnPath(fat: seq<uint32>, start: uint32, x: nat, n: nat) {
    Hop(fat, start, n) == x && !Terminal(x)
  }

  /** Links from inside the region stay inside or end. */
  ghost predicate StaysInside(fat: seq<uint32>, region: set<nat>, start: uint32) {
    (Terminal(start) || start in region) &&
    forall x :: x in region ==> x < |fat| && x != FAT_FREE && (Terminal(fat[x]) || fat[x] in region)
  }

  lemma {:induction false} HopStep(fat: seq<uint32>, b: uint32, n: nat)
    ensures var x := Hop(fat, b, n);
            Hop(fat, b, n + 1) == if Terminal(x) || x >= |fat| then x else fat[x]
    decreases n
  {
    if n > 0 && !Terminal(b) && b < |fat| {
      HopStep(fat, fat[b], n - 1);
    }
  }

  lemma {:induction false} HopStaysInside(fat: seq<uint32>, region: set<nat>, b: uint32, n: nat)
    requires StaysInside(fat, region, b)
    ensures Terminal(Hop(fat, b, n)) || Hop(fat, b, n) in region
    decreases n
  {
    if n > 0 && !Terminal(b) {
      HopStaysInside(fat, region, fat[b], n - 1);
    }
  }

  lemma ReachesNext(fat: seq<uint32>, start: uint32, x: uint32)
    requires Reaches(fat, start, x) && x < |fat|
    ensures Terminal(fat[x]) || Reaches(fat, start, fat[x])
  {
    var n: nat :| OnPath(fat, start, x, n);
    HopStep(fat, start, n);
    assert Terminal(fat[x]) || OnPath(fat, start, fat[x], n + 1);
  }

  /** Anything reachable lies in every closed region. */
  lemma ReachesInside(fat: seq<uint32>, region: set<nat>, start: uint32, x: nat)
    requires StaysInside(fat, region, start) && Reaches(fat, start, x)
    ensures x in region
  {
    var n: nat :| OnPath(fat, start, x, n);
    HopStaysInside(fat, region, start, n);
  }

  lemma ChainClosed(fat: seq<uint32>, first: uint32, c: seq<nat>, m: nat)
    requires |fat| == DISK_BLOCKS && InData(c) && IsChain(fat, first, c) && m <= |c|
    ensures StaysInside(fat, Elements(c[m..]), if m < |c| then c[m] else FAT_EOF)
  {
    var region := Elements(c[m..]);
    if m < |c| {
      assert c[m..][0] == c[m];
    }
    forall x | x in region
      ensures x < |fat| && x != FAT_FREE && (Terminal(fat[x]) || fat[x] in region)
    {
      var p :| 0 <= p < |c| - m && c[m..][p] == x;
      assert fat[c[m + p]] == Link(c, m + p);
      if m + p + 1 < |c| {
        assert c[m..][p + 1] == c[m + p + 1];
      }
    }
  }

  lemma {:induction false} ChainReaches(fat: seq<uint32>, first: uint32, c: seq<nat>, m: nat, p: nat)
    requires |fat| == DISK_BLOCKS && InData(c) && IsChain(fat, first, c) && m <= p < |c|
    ensures Reaches(fat, c[m], c[p])
    decreases p - m
  {
    if p == m {
      assert OnPath(fat, c[m], c[m], 0);
    } else {
      ChainReaches(fat, first, c, m, p - 1);
      assert fat[c[p - 1]] == Link(c, p - 1);
      ReachesNext(fat, c[m], c[p - 1]);
    }
  }

  /** From position m of a chain exactly the rest of the chain is reachable. */
  lemma ReachesRest(fat: seq<uint32>, first: uint32, c: seq<nat>, m: nat, x: nat)
    requires |fat| == DISK_BLOCKS && InData(c) && IsChain(fat, first, c) && m <= |c|
    ensures Reaches(fat, if m < |c| then c[m] else FAT_EOF, x) <==> x in c[m..]
  {
    var start := if m < |c| then c[m] else FAT_EOF;
    if Reaches(fat, start, x) {
      ChainClosed(fat, first, c, m);
      ReachesInside(fat, Elements(c[m..]), start, x);
    }
    if x in c[m..] {
      var p :| 0 <= p < |c| - m && c[m..][p] == x;
      ChainReaches(fat, first, c, m, m + p);
    }
  }
}
