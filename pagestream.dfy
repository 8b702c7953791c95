/**
 * The codec's operations as the source runs them: `serialize` appending to a
 * `BytesMut` field by field, and `parse` pulling fields from a `Reader` one read
 * at a time. Each is proved to compute exactly the byte image or the decoding
 * defined in `PagestreamFe` and `PagestreamBe`, whose laws are proved there and
 * in `PagestreamLaws`.
 */
module Pagestream {
  import opened Wrappers
  import opened Wire
  import opened ByteIo
  import Fe = PagestreamFe
  import Be = PagestreamBe

  /** `PagestreamFeMessage::serialize`. */
  method SerializeRequest<K>(m: Fe.PagestreamFeMessage<K>, kinds: Fe.SlruCodec<K>)
    returns (bytes: seq<u8>)
    ensures bytes == Fe.Encode(m, kinds)
  {
    var buf := new BytesMut();
    match m {
      case Exists(latest, lsn, region, rel) =>
        buf.PutU8(0);
        assert buf.content == [0];
        buf.PutU8(BoolByte(latest));
        buf.PutU64(lsn.value);
        buf.PutU32(rel.spcnode);
        buf.PutU32(rel.dbnode);
        buf.PutU32(rel.relnode);
        buf.PutU8(rel.forknum);
        buf.PutU32(region);
      case Nblocks(latest, lsn, region, rel) =>
        buf.PutU8(1);
        assert buf.content == [1];
        buf.PutU8(BoolByte(latest));
        buf.PutU64(lsn.value);
        buf.PutU32(rel.spcnode);
        buf.PutU32(rel.dbnode);
        buf.PutU32(rel.relnode);
        buf.PutU8(rel.forknum);
        buf.PutU32(region);
      case GetPage(latest, lsn, region, rel, blkno) =>
        buf.PutU8(2);
        assert buf.content == [2];
        buf.PutU8(BoolByte(latest));
        buf.PutU64(lsn.value);
        buf.PutU32(rel.spcnode);
        buf.PutU32(rel.dbnode);
        buf.PutU32(rel.relnode);
        buf.PutU8(rel.forknum);
        buf.PutU32(blkno);
        buf.PutU32(region);
      case DbSize(latest, lsn, dbnode) =>
        buf.PutU8(3);
        assert buf.content == [3];
        buf.PutU8(BoolByte(latest));
        buf.PutU64(lsn.value);
        buf.PutU32(dbnode);
      case GetSlruPage(latest, lsn, region, kind, segno, blkno, checkExistsOnly) =>
        buf.PutU8(4);
        assert buf.content == [4];
        buf.PutU8(BoolByte(latest));
        buf.PutU64(lsn.value);
        buf.PutU8(kinds.toByte(kind));
        buf.PutU32(segno);
        buf.PutU32(blkno);
        buf.PutU8(BoolByte(checkExistsOnly));
        buf.PutU32(region);
    }
    bytes := buf.content;
  }

  /** `PagestreamBeMessage::serialize`. */
  method SerializeResponse(m: Be.PagestreamBeMessage) returns (bytes: seq<u8>)
    ensures bytes == Be.Encode(m)
  {
    var buf := new BytesMut();
    match m {
      case Exists(lsn, relExists) =>
        buf.PutU8(100);
        assert buf.content == [100];
        buf.PutU64(lsn.value);
        buf.PutU8(BoolByte(relExists));
      case Nblocks(lsn, nBlocks) =>
        buf.PutU8(101);
        assert buf.content == [101];
        buf.PutU64(lsn.value);
        buf.PutU32(nBlocks);
      case GetPage(lsn, page) =>
        buf.PutU8(102);
        assert buf.content == [102];
        buf.PutU64(lsn.value);
        buf.Put(page);
      case GetSlruPage(lsn, segExists, page) =>
        buf.PutU8(103);
        assert buf.content == [103];
        buf.PutU64(lsn.value);
        buf.PutU8(BoolByte(segExists));
        match page {
          case Some(p) =>
            ghost var before := buf.content;
            buf.PutU8(1);
            buf.Put(p);
            assert buf.content == before + ([1] + p);
          case None =>
            buf.PutU8(0);
        }
      case Error(message) =>
        buf.PutU8(104);
        assert buf.content == [104];
        buf.Put(message);
        buf.PutU8(0);
      case DbSize(lsn, dbSize) =>
        buf.PutU8(105);
        assert buf.content == [105];
        buf.PutU64(lsn.value);
        buf.PutI64(dbSize);
    }
    bytes := buf.content;
  }

  /**
   * `PagestreamFeMessage::parse`: every read may fail, and so may an unknown tag
   * or kind byte. On success the cursor has moved past exactly the bytes read.
   */
  method ParseRequest<K>(body: Reader, kinds: Fe.SlruCodec<K>)
    returns (r: Option<Fe.PagestreamFeMessage<K>>)
    requires body.Valid()
    modifies body
    ensures body.Valid()
    ensures r.Some? <==> Fe.Parse(body.data, old(body.pos), kinds).Some?
    ensures r.Some? ==> r.value == Fe.Parse(body.data, old(body.pos), kinds).value.value
                        && body.pos == Fe.Parse(body.data, old(body.pos), kinds).value.end
    ensures r.None? ==> old(body.pos) <= body.pos
  {
    var tag :- body.ReadU8();
    match tag {
      case 0 => r := ReadExists(body);
      case 1 => r := ReadNblocks(body);
      case 2 => r := ReadGetPage(body);
      case 3 => r := ReadDbSize(body);
      case 4 => r := ReadGetSlruPage(body, kinds);
      case _ => r := None;
    }
  }

  /** The Exists arm of `parse`, reading from just after the tag byte. */
  method ReadExists<K>(body: Reader)
    returns (r: Option<Fe.PagestreamFeMessage<K>>)
    requires body.Valid()
    modifies body
    ensures body.Valid()
    ensures r.Some? <==> Fe.ParseExists<K>(body.data, old(body.pos)).Some?
    ensures r.Some? ==> r.value == Fe.ParseExists<K>(body.data, old(body.pos)).value.value
                        && body.pos == Fe.ParseExists<K>(body.data, old(body.pos)).value.end
    ensures r.None? ==> old(body.pos) <= body.pos
  {
    var latest :- body.ReadU8();
    var lsn :- body.ReadU64();
    var region :- body.ReadU32();
    var spcnode :- body.ReadU32();
    var dbnode :- body.ReadU32();
    var relnode :- body.ReadU32();
    var forknum :- body.ReadU8();
    r := Some(Fe.Exists(latest != 0, Lsn(lsn), region, Fe.RelTag(spcnode, dbnode, relnode, forknum)));
  }

  /** The Nblocks arm of `parse`, reading from just after the tag byte. */
  method ReadNblocks<K>(body: Reader)
    returns (r: Option<Fe.PagestreamFeMessage<K>>)
    requires body.Valid()
    modifies body
    ensures body.Valid()
    ensures r.Some? <==> Fe.ParseNblocks<K>(body.data, old(body.pos)).Some?
    ensures r.Some? ==> r.value == Fe.ParseNblocks<K>(body.data, old(body.pos)).value.value
                        && body.pos == Fe.ParseNblocks<K>(body.data, old(body.pos)).value.end
    ensures r.None? ==> old(body.pos) <= body.pos
  {
    var latest :- body.ReadU8();
    var lsn :- body.ReadU64();
    var region :- body.ReadU32();
    var spcnode :- body.ReadU32();
    var dbnode :- body.ReadU32();
    var relnode :- body.ReadU32();
    var forknum :- body.ReadU8();
    r := Some(Fe.Nblocks(latest != 0, Lsn(lsn), region, Fe.RelTag(spcnode, dbnode, relnode, forknum)));
  }

  /** The GetPage arm of `parse`, reading from just after the tag byte. */
  method ReadGetPage<K>(body: Reader)
    returns (r: Option<Fe.PagestreamFeMessage<K>>)
    requires body.Valid()
    modifies body
    ensures body.Valid()
    ensures r.Some? <==> Fe.ParseGetPage<K>(body.data, old(body.pos)).Some?
    ensures r.Some? ==> r.value == Fe.ParseGetPage<K>(body.data, old(body.pos)).value.value
                        && body.pos == Fe.ParseGetPage<K>(body.data, old(body.pos)).value.end
    ensures r.None? ==> old(body.pos) <= body.pos
  {
    var latest :- body.ReadU8();
    var lsn :- body.ReadU64();
    var region :- body.ReadU32();
    var spcnode :- body.ReadU32();
    var dbnode :- body.ReadU32();
    var relnode :- body.ReadU32();
    var forknum :- body.ReadU8();
    var blkno :- body.ReadU32();
    r := Some(Fe.GetPage(latest != 0, Lsn(lsn), region, Fe.RelTag(spcnode, dbnode, relnode, forknum),
                         blkno));
  }

  /** The DbSize arm of `parse`, reading from just after the tag byte. */
  method ReadDbSize<K>(body: Reader)
    returns (r: Option<Fe.PagestreamFeMessage<K>>)
    requires body.Valid()
    modifies body
    ensures body.Valid()
    ensures r.Some? <==> Fe.ParseDbSize<K>(body.data, old(body.pos)).Some?
    ensures r.Some? ==> r.value == Fe.ParseDbSize<K>(body.data, old(body.pos)).value.value
                        && body.pos == Fe.ParseDbSize<K>(body.data, old(body.pos)).value.end
    ensures r.None? ==> old(body.pos) <= body.pos
  {
    var latest :- body.ReadU8();
    var lsn :- body.ReadU64();
    var dbnode :- body.ReadU32();
    r := Some(Fe.DbSize(latest != 0, Lsn(lsn), dbnode));
  }

  /** The GetSlruPage arm of `parse`, reading from just after the tag byte. */
  method ReadGetSlruPage<K>(body: Reader, kinds: Fe.SlruCodec<K>)
    returns (r: Option<Fe.PagestreamFeMessage<K>>)
    requires body.Valid()
    modifies body
    ensures body.Valid()
    ensures r.Some? <==> Fe.ParseGetSlruPage(body.data, old(body.pos), kinds).Some?
    ensures r.Some? ==> r.value == Fe.ParseGetSlruPage(body.data, old(body.pos), kinds).value.value
                        && body.pos == Fe.ParseGetSlruPage(body.data, old(body.pos), kinds).value.end
    ensures r.None? ==> old(body.pos) <= body.pos
  {
    var latest :- body.ReadU8();
    var lsn :- body.ReadU64();
    var region :- body.ReadU32();
    var kindByte :- body.ReadU8();
    var kind :- kinds.fromByte(kindByte);
    var segno :- body.ReadU32();
    var blkno :- body.ReadU32();
    var checkExistsOnly :- body.ReadU8();
    r := Some(Fe.GetSlruPage(latest != 0, Lsn(lsn), region, kind, segno, blkno, checkExistsOnly != 0));
  }
}
