/** Byte-level building blocks of the PCK codec: octets, Go's `uint32`
    with its wrap-around, little-endian 32-bit fields, and the
    concatenation of byte blocks that container data is made of. */
module Bytes {

  /** One octet of a container file. */
  type byte = b: int | 0 <= b < 0x100

  /** The values of a Go `uint32`. */
  type u32 = x: int | 0 <= x < 0x1_0000_0000

  /** Go's `uint32(x)` conversion, and the result of any `uint32` sum or
      difference whose mathematical value is `x`: `x` brought into range
      by whole multiples of 2^32. */
  function Wrap32(x: int): (r: u32)
    ensures 0 <= x < 0x1_0000_0000 ==> r == x
    decreases if x < 0 then 0x1_0000_0000 - x else x
  {
    if x < 0 then Wrap32(x + 0x1_0000_0000)
    else if x < 0x1_0000_0000 then x
    else Wrap32(x - 0x1_0000_0000)
  }

  /** The wrap is the remainder modulo 2^32. */
  lemma {:induction false} Wrap32Mod(x: int)
    ensures Wrap32(x) == x % 0x1_0000_0000
    decreases if x < 0 then 0x1_0000_0000 - x else x
  {
    if x < 0 {
      Wrap32Mod(x + 0x1_0000_0000);
    } else if x >= 0x1_0000_0000 {
      Wrap32Mod(x - 0x1_0000_0000);
    }
  }

  lemma ModAddMultiple(x: int, q: int)
    ensures (x + q * 0x1_0000_0000) % 0x1_0000_0000 == x % 0x1_0000_0000
  {
    var r := x % 0x1_0000_0000;
    var d := x / 0x1_0000_0000;
    assert x == d * 0x1_0000_0000 + r;
    assert x + q * 0x1_0000_0000 == (d + q) * 0x1_0000_0000 + r;
  }

  /** Wrapping an intermediate sum does not change the wrapped total, so a
      chain of `uint32` additions equals one wrap of the exact sum. */
  lemma Wrap32Add(a: int, b: int)
    ensures Wrap32(Wrap32(a) + b) == Wrap32(a + b)
  {
    Wrap32Mod(a);
    Wrap32Mod(Wrap32(a) + b);
    Wrap32Mod(a + b);
    var q := a / 0x1_0000_0000;
    assert a == q * 0x1_0000_0000 + Wrap32(a);
    ModAddMultiple(Wrap32(a) + b, q);
  }

  /** The same for a wrapped term in the middle of a sum. */
  lemma Wrap32Inner(a: int, b: int, c: int)
    ensures Wrap32(a + Wrap32(b) + c) == Wrap32(a + b + c)
  {
    Wrap32Add(b, a + c);
  }

  /** 256 to the power `n`: the number of values `n` bytes can hold. */
  function Pow256(n: nat): nat {
    if n == 0 then 1 else 0x100 * Pow256(n - 1)
  }

  /** The low `n` bytes of `x`, least significant first. */
  function EncodeLE(x: nat, n: nat): (b: seq<byte>)
    ensures |b| == n
  {
    if n == 0 then [] else [x % 0x100] + EncodeLE(x / 0x100, n - 1)
  }

  /** The number whose little-endian bytes are `b`. */
  function DecodeLE(b: seq<byte>): nat
  {
    if |b| == 0 then 0 else b[0] + 0x100 * DecodeLE(b[1..])
  }

  lemma {:induction false} DecodeLEBound(b: seq<byte>)
    ensures DecodeLE(b) < Pow256(|b|)
  {
    if |b| > 0 {
      DecodeLEBound(b[1..]);
    }
  }

  lemma {:induction false} DecodeEncodeLE(x: nat, n: nat)
    requires x < Pow256(n)
    ensures DecodeLE(EncodeLE(x, n)) == x
  {
    if n > 0 {
      DecodeEncodeLE(x / 0x100, n - 1);
      assert EncodeLE(x, n)[1..] == EncodeLE(x / 0x100, n - 1);
    }
  }

  lemma {:induction false} EncodeDecodeLE(b: seq<byte>)
    ensures EncodeLE(DecodeLE(b), |b|) == b
  {
    if |b| > 0 {
      EncodeDecodeLE(b[1..]);
      var x := DecodeLE(b);
      assert x % 0x100 == b[0];
      assert x / 0x100 == DecodeLE(b[1..]);
      assert b == [b[0]] + b[1..];
    }
  }

  /** Little-endian encoding of a `uint32`, as `binary.Write` does. Built
      index by index, so a proof sees a byte only where it reads one. */
  function EncodeU32(x: u32): (b: seq<byte>)
    ensures |b| == 4
  {
    seq(4, i requires 0 <= i < 4 => EncodeLE(x, 4)[i])
  }

  /** Little-endian decoding of four bytes, as `binary.Read` does. */
  function DecodeU32(b: seq<byte>): u32
    requires |b| == 4
  {
    DecodeLEBound(b);
    assert Pow256(4) == 0x1_0000_0000;
    DecodeLE(b)
  }

  lemma DecodeEncodeU32(x: u32)
    ensures DecodeU32(EncodeU32(x)) == x
  {
    assert Pow256(4) == 0x1_0000_0000;
    assert EncodeU32(x) == EncodeLE(x, 4);
    DecodeEncodeLE(x, 4);
  }

  /** Four bytes read as a `uint32` and written back are the same bytes. */
  lemma EncodeDecodeU32(b: seq<byte>)
    requires |b| == 4
    ensures EncodeU32(DecodeU32(b)) == b
  {
    EncodeDecodeLE(b);
    assert EncodeU32(DecodeU32(b)) == EncodeLE(DecodeU32(b), 4);
  }

  lemma SliceSplit<T>(s: seq<T>, j: nat, k: nat)
    requires j <= k <= |s|
    ensures s[..k] == s[..j] + s[j..k]
  {
  }

  lemma SliceSplitAt<T>(s: seq<T>, i: nat, j: nat, k: nat)
    requires i <= j <= k <= |s|
    ensures s[i..k] == s[i..j] + s[j..k]
  {
  }

  /** The number of elements in a list of blocks. */
  function TotalSize<T>(blocks: seq<seq<T>>): nat
  {
    if |blocks| == 0 then 0 else |blocks[0]| + TotalSize(blocks[1..])
  }

  /** The blocks written one after another. */
  function Concat<T>(blocks: seq<seq<T>>): (r: seq<T>)
    ensures |r| == TotalSize(blocks)
  {
    if |blocks| == 0 then [] else blocks[0] + Concat(blocks[1..])
  }

  lemma {:induction false} ConcatAppend<T>(a: seq<seq<T>>, b: seq<seq<T>>)
    ensures Concat(a + b) == Concat(a) + Concat(b)
    ensures TotalSize(a + b) == TotalSize(a) + TotalSize(b)
  {
    if |a| == 0 {
      assert a + b == b;
    } else {
      assert (a + b)[1..] == a[1..] + b;
      ConcatAppend(a[1..], b);
    }
  }

  /** Block `k` sits in the concatenation right after the blocks before it. */
  lemma ConcatBlockAt<T>(blocks: seq<seq<T>>, k: nat)
    requires k < |blocks|
    ensures TotalSize(blocks[..k]) + |blocks[k]| <= TotalSize(blocks)
    ensures Concat(blocks)[TotalSize(blocks[..k]) .. TotalSize(blocks[..k]) + |blocks[k]|] == blocks[k]
  {
    assert blocks == blocks[..k] + blocks[k..];
    ConcatAppend(blocks[..k], blocks[k..]);
    assert blocks[k..][0] == blocks[k];
  }
}
