/** Machine-level vocabulary of the file system: bytes, 32-bit words, disk blocks
    and the byte-string operations that memcpy, memset and strncmp perform. */
module Bytes {

  type byte = x: int | 0 <= x < 256
  type uint32 = x: int | 0 <= x < 0x1_0000_0000

  const BLOCK_SIZE: int := 4096

  type Block = b: seq<byte> | |b| == BLOCK_SIZE witness seq(BLOCK_SIZE, _ => 0)

  function Zeros(n: nat): (z: seq<byte>)
    ensures |z| == n
  {
    seq(n, _ => 0)
  }

  const ZeroBlock: Block := Zeros(BLOCK_SIZE)

  function Min(a: int, b: int): int { if a <= b then a else b }

  function Max(a: int, b: int): int { if a <= b then b else a }

  /** Number of blocks that hold n bytes. */
  function BlocksFor(n: nat): nat { (n + BLOCK_SIZE - 1) / BLOCK_SIZE }

  /** Moving on inside a block, or exactly to the start of the next one. */
  lemma Advance(i: nat, offset: nat, chunk: nat)
    requires chunk > 0 && offset % BLOCK_SIZE + chunk <= BLOCK_SIZE
    ensures var pos := i * BLOCK_SIZE + offset;
            pos % BLOCK_SIZE == offset % BLOCK_SIZE &&
            ((offset + chunk) % BLOCK_SIZE == 0 <==> pos % BLOCK_SIZE + chunk == BLOCK_SIZE) &&
            (pos + chunk) / BLOCK_SIZE == pos / BLOCK_SIZE + (if (offset + chunk) % BLOCK_SIZE == 0 then 1 else 0)
  {
  }

  lemma LastBlockOf(i: nat, off: nat)
    requires 0 < off <= BLOCK_SIZE
    ensures BlocksFor(i * BLOCK_SIZE + off) == i + 1
  {
  }

  /** `d` copied over `s` at position `o`, extending `s` when it sticks out. */
  function Overlay(s: seq<byte>, o: nat, d: seq<byte>): (r: seq<byte>)
    requires o <= |s|
    ensures |r| == Max(|s|, o + |d|)
  {
    s[..o] + d + (if o + |d| < |s| then s[o + |d|..] else [])
  }

  /** memcpy of `d` into a block buffer at `off`. */
  function Patch(b: Block, off: nat, d: seq<byte>): Block
    requires off + |d| <= BLOCK_SIZE
  {
    b[..off] + d + b[off + |d|..]
  }

  lemma OverlayOverlay(s: seq<byte>, o: nat, d: seq<byte>, e: seq<byte>)
    requires o <= |s|
    ensures Overlay(Overlay(s, o, d), o + |d|, e) == Overlay(s, o, d + e)
  {
  }

  lemma TakeMore(s: seq<byte>, a: nat, b: nat)
    requires a <= b <= |s|
    ensures s[..a] + s[a..b] == s[..b]
  {
  }

  lemma SliceMore(s: seq<byte>, o: nat, a: nat, b: nat)
    requires o <= a <= b <= |s|
    ensures s[o..a] + s[a..b] == s[o..b]
  {
  }

  /** Byte k (0 = least significant) of a 32-bit word. */
  function WordByte(w: uint32, k: nat): byte
    requires k < 4
  {
    if k == 0 then w % 256
    else if k == 1 then w / 256 % 256
    else if k == 2 then w / 256 / 256 % 256
    else w / 256 / 256 / 256
  }

  function WordOf(b0: byte, b1: byte, b2: byte, b3: byte): uint32 {
    b0 + 256 * (b1 + 256 * (b2 + 256 * b3))
  }

  lemma WordRoundTrip(w: uint32)
    ensures WordOf(WordByte(w, 0), WordByte(w, 1), WordByte(w, 2), WordByte(w, 3)) == w
  {
  }

  /** strncmp(a, b, n) == 0, where `b` is a C string with its terminator. */
  predicate StrncmpEqual(a: seq<byte>, b: seq<byte>, n: nat)
    requires n <= |a| && 0 in b
    decreases n
  {
    n == 0 || (a[0] == b[0] && (a[0] == 0 || StrncmpEqual(a[1..], b[1..], n - 1)))
  }

  /** The C string that starts a character buffer. */
  function CString(buf: seq<byte>): (s: seq<byte>)
    ensures 0 !in s && |s| <= |buf|
  {
    if buf == [] || buf[0] == 0 then [] else [buf[0]] + CString(buf[1..])
  }

  lemma {:induction false} CStringOfPadded(name: seq<byte>, n: nat)
    requires 0 !in name
    ensures CString(name + Zeros(n)) == name
  {
    if name != [] {
      assert (name + Zeros(n))[1..] == name[1..] + Zeros(n);
      CStringOfPadded(name[1..], n);
    }
  }

  /** On a NUL-padded buffer, strncmp decides equality with any C string. */
  lemma {:induction false} StrncmpDecidesEquality(stored: seq<byte>, name: seq<byte>, pad: nat)
    requires 0 !in stored && 0 !in name && pad > 0
    ensures StrncmpEqual(stored + Zeros(pad), name + [0], |stored| + pad) <==> stored == name
    decreases |stored|
  {
    var a, b := stored + Zeros(pad), name + [0];
    if stored == [] {
      assert a[0] == 0;
      assert name != [] ==> b[0] == name[0] && name[0] in name;
    } else if name == [] {
      assert a[0] == stored[0] && stored[0] in stored;
    } else {
      assert a[1..] == stored[1..] + Zeros(pad);
      assert b[1..] == name[1..] + [0];
      assert stored[0] in stored;
      StrncmpDecidesEquality(stored[1..], name[1..], pad);
      if stored[0] == name[0] && stored[1..] == name[1..] {
        assert stored == [stored[0]] + stored[1..] && name == [name[0]] + name[1..];
      }
    }
  }
}
