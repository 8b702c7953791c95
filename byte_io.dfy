/**
 * The two byte-stream objects the codec works through: the growable output
 * buffer `bytes::BytesMut` with its `BufMut` writers, and an input stream read
 * with `byteorder::ReadBytesExt` (`read_u8`, `read_u32::<BigEndian>`, ...).
 */
module ByteIo {
  import opened Wrappers
  import opened Wire

  /** An output buffer that only grows at its end. */
  class BytesMut {
    var content: seq<u8>

    constructor ()
      ensures content == []
    {
      content := [];
    }

    method PutU8(x: u8)
      modifies this
      ensures content == old(content) + [x]
    {
      content := content + [x];
    }

    /** `put_u32`: the four bytes of `x`, most significant first. */
    method PutU32(x: u32)
      modifies this
      ensures content == old(content) + ToBE(x, 4)
    {
      content := content + ToBE(x, 4);
    }

    /** `put_u64`: the eight bytes of `x`, most significant first. */
    method PutU64(x: u64)
      modifies this
      ensures content == old(content) + ToBE(x, 8)
    {
      content := content + ToBE(x, 8);
    }

    /** `put_i64`: the eight bytes of the two's-complement image of `x`. */
    method PutI64(x: i64)
      modifies this
      ensures content == old(content) + ToBE(TwosComplement(x), 8)
    {
      content := content + ToBE(TwosComplement(x), 8);
    }

    /** `put`: a slice of bytes, as it is. */
    method Put(b: seq<u8>)
      modifies this
      ensures content == old(content) + b
    {
      content := content + b;
    }
  }

  /**
   * An input stream over a fixed byte string with a cursor. A read that finds
   * too few bytes fails; how far the cursor has moved by then is not promised
   * (the source's `read_exact` consumes what it could read).
   */
  class Reader {
    const data: seq<u8>
    var pos: nat

    predicate Valid()
      reads this
    {
      pos <= |data|
    }

    constructor (data: seq<u8>)
      ensures Valid() && this.data == data && pos == 0
    {
      this.data := data;
      pos := 0;
    }

    method ReadU8() returns (r: Option<u8>)
      requires Valid()
      modifies this
      ensures Valid()
      ensures r.Some? <==> Wire.ReadU8(data, old(pos)).Some?
      ensures r.Some? ==> r.value == Wire.ReadU8(data, old(pos)).value.value
                          && pos == Wire.ReadU8(data, old(pos)).value.end
      ensures r.None? ==> old(pos) <= pos
    {
      if pos < |data| {
        r := Some(data[pos]);
        pos := pos + 1;
      } else {
        r := None;
      }
    }

    /**
     * `read_exact` of `n` bytes followed by their big-endian value: the bytes are
     * taken one at a time, most significant first.
     */
    method ReadBE(n: nat) returns (r: Option<nat>)
      requires Valid()
      modifies this
      ensures Valid()
      ensures r.Some? <==> old(pos) + n <= |data|
      ensures r.Some? ==> r.value == FromBE(data[old(pos)..old(pos) + n]) && pos == old(pos) + n
      ensures r.None? ==> old(pos) <= pos
    {
      if |data| - pos < n {
        pos := |data|;
        return None;
      }
      var start := pos;
      var v: nat := 0;
      while pos < start + n
        invariant start <= pos <= start + n <= |data|
        invariant v == FromBE(data[start..pos])
      {
        assert data[start..pos + 1][..pos - start] == data[start..pos];
        v := v * 256 + data[pos];
        pos := pos + 1;
      }
      r := Some(v);
    }

    /** `read_u32::<BigEndian>`. */
    method ReadU32() returns (r: Option<u32>)
      requires Valid()
      modifies this
      ensures Valid()
      ensures r.Some? <==> Wire.ReadU32(data, old(pos)).Some?
      ensures r.Some? ==> r.value == Wire.ReadU32(data, old(pos)).value.value
                          && pos == Wire.ReadU32(data, old(pos)).value.end
      ensures r.None? ==> old(pos) <= pos
    {
      var v := ReadBE(4);
      if v.None? {
        return None;
      }
      assert v.value == U32At(data, old(pos));
      r := Some(v.value);
    }

    /** `read_u64::<BigEndian>`. */
    method ReadU64() returns (r: Option<u64>)
      requires Valid()
      modifies this
      ensures Valid()
      ensures r.Some? <==> Wire.ReadU64(data, old(pos)).Some?
      ensures r.Some? ==> r.value == Wire.ReadU64(data, old(pos)).value.value
                          && pos == Wire.ReadU64(data, old(pos)).value.end
      ensures r.None? ==> old(pos) <= pos
    {
      var v := ReadBE(8);
      if v.None? {
        return None;
      }
      assert v.value == U64At(data, old(pos));
      r := Some(v.value);
    }
  }
}
