/**
 * Compute-to-server Pagestream requests (`PagestreamFeMessage`): the message
 * datatype, its byte image as `serialize` writes it, and `parse`.
 */
module PagestreamFe {
  import opened Wrappers
  import opened Wire

  /** Identifies one fork of a physical relation; equality is field-wise. */
  datatype RelTag = RelTag(spcnode: u32, dbnode: u32, relnode: u32, forknum: u8)

  /**
   * `SlruKind` and its one-byte mapping (`u8::from`, `SlruKind::try_from`) live in a
   * file that is not part of this model: the kind is a type parameter `K` and the
   * mapping a value of this datatype, total towards bytes and partial back.
   */
  datatype SlruCodec<!K> = SlruCodec(toByte: K -> u8, fromByte: u8 -> Option<K>)

  /**
   * A request. Each variant carries the fields of its request struct
   * (`PagestreamExistsRequest`, ...), in the order they are declared there.
   */
  datatype PagestreamFeMessage<K> =
    | Exists(latest: bool, lsn: Lsn, region: u32, rel: RelTag)
    | Nblocks(latest: bool, lsn: Lsn, region: u32, rel: RelTag)
    | GetPage(latest: bool, lsn: Lsn, region: u32, rel: RelTag, blkno: u32)
    | DbSize(latest: bool, lsn: Lsn, dbnode: u32)
    | GetSlruPage(latest: bool, lsn: Lsn, region: u32, kind: K, segno: u32, blkno: u32,
                  checkExistsOnly: bool)

  /** The frozen request tags, shared with the compute node's client. */
  function Tag<K>(m: PagestreamFeMessage<K>): (r: u8)
    ensures r <= 4
    ensures (r == 0 <==> m.Exists?) && (r == 1 <==> m.Nblocks?) && (r == 2 <==> m.GetPage?)
    ensures (r == 3 <==> m.DbSize?) && (r == 4 <==> m.GetSlruPage?)
  {
    match m
    case Exists(_, _, _, _) => 0
    case Nblocks(_, _, _, _) => 1
    case GetPage(_, _, _, _, _) => 2
    case DbSize(_, _, _) => 3
    case GetSlruPage(_, _, _, _, _, _, _) => 4
  }

  /** The fixed number of bytes a request with a known tag occupies, tag byte included. */
  function FrameLength(tag: u8): nat
    requires tag <= 4
  {
    match tag
    case 0 => 27  // tag, latest, lsn, spcnode, dbnode, relnode, forknum, region
    case 1 => 27  // as Exists
    case 2 => 31  // as Exists, and blkno
    case 3 => 14  // tag, latest, lsn, dbnode
    case 4 => 24  // tag, latest, lsn, kind, segno, blkno, check_exists_only, region
  }

  /** Byte offset, within a GetSlruPage frame, of the byte `parse` decodes as the kind. */
  const SLRU_KIND_OFFSET: nat := 14

  /**
   * The inputs `parse` accepts at cursor `at`: a known tag, at least the fixed length
   * for that tag, and, for GetSlruPage, a kind byte the mapping knows.
   */
  predicate Framed<K>(s: seq<u8>, at: nat, kinds: SlruCodec<K>)
  {
    && at < |s|
    && s[at] <= 4
    && at + FrameLength(s[at]) <= |s|
    && (s[at] == 4 ==> kinds.fromByte(s[at + SLRU_KIND_OFFSET]).Some?)
  }

  /**
   * The bytes `PagestreamFeMessage::serialize` produces. Note that every variant
   * but DbSize writes `region` last, after the relation or SLRU fields.
   */
  function Encode<K>(m: PagestreamFeMessage<K>, kinds: SlruCodec<K>): (r: seq<u8>)
    ensures |r| == FrameLength(Tag(m))
    ensures r[0] == Tag(m)
  {
    match m
    case Exists(latest, lsn, region, rel) =>
      [0] + [BoolByte(latest)] + ToBE(lsn.value, 8)
      + ToBE(rel.spcnode, 4) + ToBE(rel.dbnode, 4) + ToBE(rel.relnode, 4) + [rel.forknum]
      + ToBE(region, 4)
    case Nblocks(latest, lsn, region, rel) =>
      [1] + [BoolByte(latest)] + ToBE(lsn.value, 8)
      + ToBE(rel.spcnode, 4) + ToBE(rel.dbnode, 4) + ToBE(rel.relnode, 4) + [rel.forknum]
      + ToBE(region, 4)
    case GetPage(latest, lsn, region, rel, blkno) =>
      [2] + [BoolByte(latest)] + ToBE(lsn.value, 8)
      + ToBE(rel.spcnode, 4) + ToBE(rel.dbnode, 4) + ToBE(rel.relnode, 4) + [rel.forknum]
      + ToBE(blkno, 4) + ToBE(region, 4)
    case DbSize(latest, lsn, dbnode) =>
      [3] + [BoolByte(latest)] + ToBE(lsn.value, 8) + ToBE(dbnode, 4)
    case GetSlruPage(latest, lsn, region, kind, segno, blkno, checkExistsOnly) =>
      [4] + [BoolByte(latest)] + ToBE(lsn.value, 8)
      + [kinds.toByte(kind)] + ToBE(segno, 4) + ToBE(blkno, 4) + [BoolByte(checkExistsOnly)]
      + ToBE(region, 4)
  }

  /**
   * The encoding `parse` expects: the same bytes as `Encode` except that `region`
   * follows `lsn`, where the request structs declare it. This is `serialize` with
   * its `put_u32(req.region)` moved up in the four variants that carry a region.
   */
  function EncodeInFieldOrder<K>(m: PagestreamFeMessage<K>, kinds: SlruCodec<K>): (r: seq<u8>)
    ensures |r| == FrameLength(Tag(m))
    ensures r[0] == Tag(m)
  {
    match m
    case Exists(latest, lsn, region, rel) =>
      [0] + [BoolByte(latest)] + ToBE(lsn.value, 8) + ToBE(region, 4)
      + ToBE(rel.spcnode, 4) + ToBE(rel.dbnode, 4) + ToBE(rel.relnode, 4) + [rel.forknum]
    case Nblocks(latest, lsn, region, rel) =>
      [1] + [BoolByte(latest)] + ToBE(lsn.value, 8) + ToBE(region, 4)
      + ToBE(rel.spcnode, 4) + ToBE(rel.dbnode, 4) + ToBE(rel.relnode, 4) + [rel.forknum]
    case GetPage(latest, lsn, region, rel, blkno) =>
      [2] + [BoolByte(latest)] + ToBE(lsn.value, 8) + ToBE(region, 4)
      + ToBE(rel.spcnode, 4) + ToBE(rel.dbnode, 4) + ToBE(rel.relnode, 4) + [rel.forknum]
      + ToBE(blkno, 4)
    case DbSize(latest, lsn, dbnode) =>
      [3] + [BoolByte(latest)] + ToBE(lsn.value, 8) + ToBE(dbnode, 4)
    case GetSlruPage(latest, lsn, region, kind, segno, blkno, checkExistsOnly) =>
      [4] + [BoolByte(latest)] + ToBE(lsn.value, 8) + ToBE(region, 4)
      + [kinds.toByte(kind)] + ToBE(segno, 4) + ToBE(blkno, 4) + [BoolByte(checkExistsOnly)]
  }

  /**
   * `PagestreamFeMessage::parse` reading `s` from cursor `at`: the message and the
   * cursor after it. Every read may fail; a bool is any byte other than 0. Nothing
   * checks what follows the last field.
   */
  function Parse<K>(s: seq<u8>, at: nat, kinds: SlruCodec<K>)
    : (r: Option<Next<PagestreamFeMessage<K>>>)
    ensures r.Some? <==> Framed(s, at, kinds)
    ensures r.Some? ==> Tag(r.value.value) == s[at] && r.value.end == at + FrameLength(s[at])
  {
    var tag :- ReadU8(s, at);
    match tag.value
    case 0 => ParseExists(s, tag.end)
    case 1 => ParseNblocks(s, tag.end)
    case 2 => ParseGetPage(s, tag.end)
    case 3 => ParseDbSize(s, tag.end)
    case 4 => ParseGetSlruPage(s, tag.end, kinds)
    case _ => None
  }

  // The arms of `parse`, one per tag, each reading from just after the tag byte.

  function ParseExists<K>(s: seq<u8>, at: nat): (r: Option<Next<PagestreamFeMessage<K>>>)
    ensures r.Some? <==> at + 26 <= |s|
    ensures r.Some? ==> r.value.value.Exists? && r.value.end == at + 26
  {
    var latest :- ReadU8(s, at);
    var lsn :- ReadU64(s, latest.end);
    var region :- ReadU32(s, lsn.end);
    var spcnode :- ReadU32(s, region.end);
    var dbnode :- ReadU32(s, spcnode.end);
    var relnode :- ReadU32(s, dbnode.end);
    var forknum :- ReadU8(s, relnode.end);
    var rel := RelTag(spcnode.value, dbnode.value, relnode.value, forknum.value);
    Some(Next(Exists(latest.value != 0, Lsn(lsn.value), region.value, rel), forknum.end))
  }

  function ParseNblocks<K>(s: seq<u8>, at: nat): (r: Option<Next<PagestreamFeMessage<K>>>)
    ensures r.Some? <==> at + 26 <= |s|
    ensures r.Some? ==> r.value.value.Nblocks? && r.value.end == at + 26
  {
    var latest :- ReadU8(s, at);
    var lsn :- ReadU64(s, latest.end);
    var region :- ReadU32(s, lsn.end);
    var spcnode :- ReadU32(s, region.end);
    var dbnode :- ReadU32(s, spcnode.end);
    var relnode :- ReadU32(s, dbnode.end);
    var forknum :- ReadU8(s, relnode.end);
    var rel := RelTag(spcnode.value, dbnode.value, relnode.value, forknum.value);
    Some(Next(Nblocks(latest.value != 0, Lsn(lsn.value), region.value, rel), forknum.end))
  }

  function ParseGetPage<K>(s: seq<u8>, at: nat): (r: Option<Next<PagestreamFeMessage<K>>>)
    ensures r.Some? <==> at + 30 <= |s|
    ensures r.Some? ==> r.value.value.GetPage? && r.value.end == at + 30
  {
    var latest :- ReadU8(s, at);
    var lsn :- ReadU64(s, latest.end);
    var region :- ReadU32(s, lsn.end);
    var spcnode :- ReadU32(s, region.end);
    var dbnode :- ReadU32(s, spcnode.end);
    var relnode :- ReadU32(s, dbnode.end);
    var forknum :- ReadU8(s, relnode.end);
    var blkno :- ReadU32(s, forknum.end);
    var rel := RelTag(spcnode.value, dbnode.value, relnode.value, forknum.value);
    Some(Next(GetPage(latest.value != 0, Lsn(lsn.value), region.value, rel, blkno.value),
              blkno.end))
  }

  function ParseDbSize<K>(s: seq<u8>, at: nat): (r: Option<Next<PagestreamFeMessage<K>>>)
    ensures r.Some? <==> at + 13 <= |s|
    ensures r.Some? ==> r.value.value.DbSize? && r.value.end == at + 13
  {
    var latest :- ReadU8(s, at);
    var lsn :- ReadU64(s, latest.end);
    var dbnode :- ReadU32(s, lsn.end);
    Some(Next(DbSize(latest.value != 0, Lsn(lsn.value), dbnode.value), dbnode.end))
  }

  /** Fails also when the kind byte, the 14th after the tag, is no kind. */
  function ParseGetSlruPage<K>(s: seq<u8>, at: nat, kinds: SlruCodec<K>)
    : (r: Option<Next<PagestreamFeMessage<K>>>)
    ensures r.Some? <==> at + 23 <= |s| && kinds.fromByte(s[at + 13]).Some?
    ensures r.Some? ==> r.value.value.GetSlruPage? && r.value.end == at + 23
  {
    var latest :- ReadU8(s, at);
    var lsn :- ReadU64(s, latest.end);
    var region :- ReadU32(s, lsn.end);
    var kindByte :- ReadU8(s, region.end);
    var kind :- kinds.fromByte(kindByte.value);
    var segno :- ReadU32(s, kindByte.end);
    var blkno :- ReadU32(s, segno.end);
    var checkExistsOnly :- ReadU8(s, blkno.end);
    Some(Next(GetSlruPage(latest.value != 0, Lsn(lsn.value), region.value, kind,
                          segno.value, blkno.value, checkExistsOnly.value != 0),
              checkExistsOnly.end))
  }
}
