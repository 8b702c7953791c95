/**
 * Fixed-width integers of the Pagestream wire format, the `Lsn` wrapper,
 * big-endian byte images (`BufMut::put_u32` and friends) and the
 * prefix-consuming readers (`ReadBytesExt::read_u32::<BigEndian>` and friends).
 */
module Wire {
  import opened Wrappers

  type u8 = x: int | 0 <= x < 0x100
  type u32 = x: int | 0 <= x < 0x1_0000_0000
  type u64 = x: int | 0 <= x < 0x1_0000_0000_0000_0000
  type i64 = x: int | -0x8000_0000_0000_0000 <= x < 0x8000_0000_0000_0000

  /** A log sequence number, a newtype around a u64 in the source. */
  datatype Lsn = Lsn(value: u64)

  function Pow256(n: nat): (r: nat)
    ensures r > 0
  {
    if n == 0 then 1 else 256 * Pow256(n - 1)
  }

  /** The `n`-byte big-endian image of `x` (of `x` modulo 256^n when it does not fit). */
  function ToBE(x: nat, n: nat): (r: seq<u8>)
    ensures |r| == n
  {
    if n == 0 then [] else ToBE(x / 256, n - 1) + [x % 256]
  }

  /** The unsigned value of a big-endian byte string. */
  function FromBE(s: seq<u8>): (r: nat)
    ensures r < Pow256(|s|)
  {
    if s == [] then 0 else FromBE(s[..|s| - 1]) * 256 + s[|s| - 1]
  }

  /** Reading back an image gives the value, whenever the value fits in `n` bytes. */
  lemma {:induction false} FromBEToBE(x: nat, n: nat)
    requires x < Pow256(n)
    ensures FromBE(ToBE(x, n)) == x
  {
    if n > 0 {
      var q, r := x / 256, x % 256;
      assert x == q * 256 + r;
      assert q < Pow256(n - 1) by {
        assert Pow256(n) == 256 * Pow256(n - 1);
      }
      var s := ToBE(x, n);
      assert s == ToBE(q, n - 1) + [r];
      assert s[..n - 1] == ToBE(q, n - 1);
      FromBEToBE(q, n - 1);
      assert FromBE(s) == FromBE(ToBE(q, n - 1)) * 256 + r;
    }
  }

  /** Every byte string is the image of its own value: the encoding is onto and one-to-one. */
  lemma {:induction false} ToBEFromBE(s: seq<u8>)
    ensures ToBE(FromBE(s), |s|) == s
  {
    if s != [] {
      var k := |s| - 1;
      ToBEFromBE(s[..k]);
      var v := FromBE(s);
      assert v / 256 == FromBE(s[..k]);
      assert v % 256 == s[k];
      assert s == s[..k] + [s[k]];
    }
  }

  /** The value of four bytes, written out. */
  lemma FromBE4(s: seq<u8>)
    requires |s| == 4
    ensures FromBE(s) == s[0] as int * 0x100_0000 + s[1] as int * 0x1_0000
                         + s[2] as int * 0x100 + s[3] as int
  {
    assert s[..3][..2] == s[..2];
    assert s[..2][..1] == s[..1];
    assert s[..1][..0] == [];
    assert FromBE(s[..1]) == s[0];
    assert FromBE(s[..2]) == FromBE(s[..1]) * 256 + s[1];
    assert FromBE(s[..3]) == FromBE(s[..2]) * 256 + s[2];
    assert FromBE(s) == FromBE(s[..3]) * 256 + s[3];
  }

  /** `bool` on the wire: the source writes `if b { 1 } else { 0 }` (or `b as u8`). */
  function BoolByte(b: bool): (r: u8)
    ensures r <= 1
    ensures (r != 0) == b
  {
    if b then 1 else 0
  }

  const TWO_63: int := 0x8000_0000_0000_0000
  const TWO_64: int := 0x1_0000_0000_0000_0000

  /** The bit pattern `put_i64` writes: the two's-complement image of `x` as a u64. */
  function TwosComplement(x: i64): (r: u64)
    ensures r % TWO_64 == x % TWO_64
    ensures (r >= TWO_63) == (x < 0)
  {
    if x < 0 then x + TWO_64 else x
  }

  /** The i64 a two's-complement bit pattern denotes. */
  function FromTwosComplement(u: u64): (r: i64)
    ensures TwosComplement(r) == u
  {
    if u < TWO_63 then u else u - TWO_64
  }

  /** Reading a two's-complement image back gives the i64 that was written. */
  lemma TwosComplementInverse(x: i64)
    ensures FromTwosComplement(TwosComplement(x)) == x
  {
  }

  /** What a successful read yields: the value and the cursor position after it. */
  datatype Next<T> = Next(value: T, end: nat)

  /** `read_u8` at cursor `at`: fails when no byte is left. */
  function ReadU8(s: seq<u8>, at: nat): (r: Option<Next<u8>>)
    ensures r.Some? <==> at + 1 <= |s|
    ensures r.Some? ==> r.value.value == s[at] && r.value.end == at + 1
  {
    if |s| < at + 1 then None else Some(Next(s[at], at + 1))
  }

  /** The big-endian u32 at offset `at`. */
  function U32At(s: seq<u8>, at: nat): (r: u32)
    requires at + 4 <= |s|
    ensures r == FromBE(s[at..at + 4])
  {
    assert |s[at..at + 4]| == 4 && Pow256(4) == 0x1_0000_0000;
    FromBE(s[at..at + 4])
  }

  /** The big-endian u64 at offset `at`. */
  function U64At(s: seq<u8>, at: nat): (r: u64)
    requires at + 8 <= |s|
    ensures r == FromBE(s[at..at + 8])
  {
    assert |s[at..at + 8]| == 8 && Pow256(8) == 0x1_0000_0000_0000_0000;
    FromBE(s[at..at + 8])
  }

  /** `read_u32::<BigEndian>` at cursor `at`: fails when fewer than four bytes are left. */
  function ReadU32(s: seq<u8>, at: nat): (r: Option<Next<u32>>)
    ensures r.Some? <==> at + 4 <= |s|
    ensures r.Some? ==> r.value == Next(U32At(s, at), at + 4)
  {
    if |s| < at + 4 then None else Some(Next(U32At(s, at), at + 4))
  }

  /** `read_u64::<BigEndian>` at cursor `at`: fails when fewer than eight bytes are left. */
  function ReadU64(s: seq<u8>, at: nat): (r: Option<Next<u64>>)
    ensures r.Some? <==> at + 8 <= |s|
    ensures r.Some? ==> r.value == Next(U64At(s, at), at + 8)
  {
    if |s| < at + 8 then None else Some(Next(U64At(s, at), at + 8))
  }

  /** A prefix of `s` is a shorter prefix followed by the bytes between them. */
  lemma PrefixSplit(s: seq<u8>, j: nat, k: nat)
    requires j <= k <= |s|
    ensures s[..k] == s[..j] + s[j..k]
  {
  }

  /** Bytes appended after a field do not change what is read there. */
  lemma U32AtAppend(s: seq<u8>, t: seq<u8>, at: nat)
    requires at + 4 <= |s|
    ensures U32At(s + t, at) == U32At(s, at)
  {
    assert (s + t)[at..at + 4] == s[at..at + 4];
  }

  lemma U64AtAppend(s: seq<u8>, t: seq<u8>, at: nat)
    requires at + 8 <= |s|
    ensures U64At(s + t, at) == U64At(s, at)
  {
    assert (s + t)[at..at + 8] == s[at..at + 8];
  }

  /** Reading a u32 back from its big-endian image. */
  lemma U32AtImage(s: seq<u8>, at: nat, x: u32)
    requires at + 4 <= |s| && s[at..at + 4] == ToBE(x, 4)
    ensures U32At(s, at) == x
  {
    FromBEToBE(x, 4);
  }

  /** Reading a u64 back from its big-endian image. */
  lemma U64AtImage(s: seq<u8>, at: nat, x: u64)
    requires at + 8 <= |s| && s[at..at + 8] == ToBE(x, 8)
    ensures U64At(s, at) == x
  {
    FromBEToBE(x, 8);
  }

  /**
   * Four bytes that straddle two fields: a byte `a` followed by the first three
   * bytes of the image of `x` read as one u32.
   */
  lemma Straddle(a: u8, x: u32)
    ensures FromBE([a] + ToBE(x, 4)[..3]) == a * 0x100_0000 + x / 0x100
    ensures ToBE(x, 4)[3] == x % 0x100
  {
    var b := ToBE(x, 4);
    FromBE4(b);
    FromBEToBE(x, 4);
    FromBE4([a] + b[..3]);
  }

  /** `Straddle` at offset `at` of a byte string. */
  lemma StraddleAt(s: seq<u8>, at: nat, a: u8, x: u32)
    requires at + 5 <= |s| && s[at] == a && s[at + 1..at + 5] == ToBE(x, 4)
    ensures U32At(s, at) == a * 0x100_0000 + x / 0x100
    ensures s[at + 4] == x % 0x100
  {
    var b := ToBE(x, 4);
    assert s[at + 1..at + 4] == b[..3] by {
      assert s[at + 1..at + 4] == s[at + 1..at + 5][..3];
    }
    assert s[at..at + 4] == [a] + b[..3] by {
      assert s[at..at + 4] == [s[at]] + s[at + 1..at + 4];
    }
    assert s[at + 4] == b[3] by {
      assert s[at + 4] == s[at + 1..at + 5][3];
    }
    Straddle(a, x);
  }
}
