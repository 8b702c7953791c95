/**
 * What decoding a serialized request gives back, variant by variant, for the
 * request codec as written and for the field-order encoding.
 */
module PagestreamLaws {
  import opened Wrappers
  import opened Wire
  import opened PagestreamFe

  /** Which bytes `parse` reads into which field, for each tag (cursor at 0). */
  lemma ParseExistsFields<K>(s: seq<u8>, kinds: SlruCodec<K>)
    requires 27 <= |s| && s[0] == 0
    ensures Parse(s, 0, kinds) == Some(Next(Exists(
      s[1] != 0, Lsn(U64At(s, 2)), U32At(s, 10),
      RelTag(U32At(s, 14), U32At(s, 18), U32At(s, 22), s[26])), 27))
  {
  }

  lemma ParseNblocksFields<K>(s: seq<u8>, kinds: SlruCodec<K>)
    requires 27 <= |s| && s[0] == 1
    ensures Parse(s, 0, kinds) == Some(Next(Nblocks(
      s[1] != 0, Lsn(U64At(s, 2)), U32At(s, 10),
      RelTag(U32At(s, 14), U32At(s, 18), U32At(s, 22), s[26])), 27))
  {
  }

  lemma ParseGetPageFields<K>(s: seq<u8>, kinds: SlruCodec<K>)
    requires 31 <= |s| && s[0] == 2
    ensures Parse(s, 0, kinds) == Some(Next(GetPage(
      s[1] != 0, Lsn(U64At(s, 2)), U32At(s, 10),
      RelTag(U32At(s, 14), U32At(s, 18), U32At(s, 22), s[26]), U32At(s, 27)), 31))
  {
  }

  lemma ParseDbSizeFields<K>(s: seq<u8>, kinds: SlruCodec<K>)
    requires 14 <= |s| && s[0] == 3
    ensures Parse(s, 0, kinds) == Some(Next(DbSize(s[1] != 0, Lsn(U64At(s, 2)), U32At(s, 10)), 14))
  {
  }

  lemma ParseGetSlruPageFields<K>(s: seq<u8>, kinds: SlruCodec<K>)
    requires 24 <= |s| && s[0] == 4
    ensures Parse(s, 0, kinds) == match kinds.fromByte(s[14])
      case None => None
      case Some(k) => Some(Next(GetSlruPage(
        s[1] != 0, Lsn(U64At(s, 2)), U32At(s, 10), k, U32At(s, 15), U32At(s, 19), s[23] != 0), 24))
  {
  }

  /** Where `serialize` puts each field of an Exists request. */
  lemma ExistsLayout<K>(latest: bool, lsn: Lsn, region: u32, rel: RelTag, kinds: SlruCodec<K>)
    ensures var s := Encode(Exists(latest, lsn, region, rel), kinds);
      && s[1] == BoolByte(latest)
      && s[2..10] == ToBE(lsn.value, 8)
      && s[10..14] == ToBE(rel.spcnode, 4)
      && s[14..18] == ToBE(rel.dbnode, 4)
      && s[18..22] == ToBE(rel.relnode, 4)
      && s[22] == rel.forknum
      && s[23..27] == ToBE(region, 4)
  {
    RelShapeAsWritten(0, BoolByte(latest), ToBE(lsn.value, 8), ToBE(rel.spcnode, 4),
                      ToBE(rel.dbnode, 4), ToBE(rel.relnode, 4), rel.forknum, ToBE(region, 4));
  }

  /**
   * The bytes after `lsn` in an Exists or Nblocks frame as written, read the way
   * `parse` reads them: one field later each, the last u32 straddling `forknum`
   * and `region`.
   */
  lemma RelFieldsShifted(s: seq<u8>, region: u32, rel: RelTag)
    requires 27 <= |s|
    requires s[10..14] == ToBE(rel.spcnode, 4) && s[14..18] == ToBE(rel.dbnode, 4)
    requires s[18..22] == ToBE(rel.relnode, 4) && s[22] == rel.forknum
    requires s[23..27] == ToBE(region, 4)
    ensures U32At(s, 10) == rel.spcnode && U32At(s, 14) == rel.dbnode
    ensures U32At(s, 18) == rel.relnode
    ensures U32At(s, 22) == rel.forknum * 0x100_0000 + region / 0x100
    ensures s[26] == region % 0x100
  {
    U32AtImage(s, 10, rel.spcnode);
    U32AtImage(s, 14, rel.dbnode);
    U32AtImage(s, 18, rel.relnode);
    StraddleAt(s, 22, rel.forknum, region);
  }

  /**
   * Parsing a serialized Exists request as written: the bytes are all consumed,
   * but `region` is filled from `spcnode`, each relation field from the next one,
   * `relnode` from `forknum` and the top three bytes of `region`, and `forknum`
   * from the low byte of `region`.
   */
  lemma ExistsDecodesShifted<K>(latest: bool, lsn: Lsn, region: u32, rel: RelTag,
                                kinds: SlruCodec<K>)
    ensures Parse(Encode(Exists(latest, lsn, region, rel), kinds), 0, kinds)
         == Some(Next(Exists(latest, lsn, rel.spcnode,
                             RelTag(rel.dbnode, rel.relnode,
                                    rel.forknum * 0x100_0000 + region / 0x100,
                                    region % 0x100)), 27))
  {
    var s := Encode(Exists(latest, lsn, region, rel), kinds);
    ExistsLayout(latest, lsn, region, rel, kinds);
    U64AtImage(s, 2, lsn.value);
    RelFieldsShifted(s, region, rel);
    ExistsParsedShifted(s, latest, lsn, region, rel, kinds);
  }

  lemma ExistsParsedShifted<K>(s: seq<u8>, latest: bool, lsn: Lsn, region: u32, rel: RelTag,
                               kinds: SlruCodec<K>)
    requires 27 <= |s| && s[0] == 0 && s[1] == BoolByte(latest) && U64At(s, 2) == lsn.value
    requires U32At(s, 10) == rel.spcnode && U32At(s, 14) == rel.dbnode
    requires U32At(s, 18) == rel.relnode
    requires U32At(s, 22) == rel.forknum * 0x100_0000 + region / 0x100 && s[26] == region % 0x100
    ensures Parse(s, 0, kinds)
         == Some(Next(Exists(latest, lsn, rel.spcnode,
                             RelTag(rel.dbnode, rel.relnode,
                                    rel.forknum * 0x100_0000 + region / 0x100,
                                    region % 0x100)), 27))
  {
    ParseExistsFields(s, kinds);
  }

  lemma NblocksLayout<K>(latest: bool, lsn: Lsn, region: u32, rel: RelTag, kinds: SlruCodec<K>)
    ensures var s := Encode(Nblocks(latest, lsn, region, rel), kinds);
      && s[1] == BoolByte(latest)
      && s[2..10] == ToBE(lsn.value, 8)
      && s[10..14] == ToBE(rel.spcnode, 4)
      && s[14..18] == ToBE(rel.dbnode, 4)
      && s[18..22] == ToBE(rel.relnode, 4)
      && s[22] == rel.forknum
      && s[23..27] == ToBE(region, 4)
  {
    RelShapeAsWritten(1, BoolByte(latest), ToBE(lsn.value, 8), ToBE(rel.spcnode, 4),
                      ToBE(rel.dbnode, 4), ToBE(rel.relnode, 4), rel.forknum, ToBE(region, 4));
  }

  /** As for Exists: Nblocks bytes are all consumed, into shifted fields. */
  lemma NblocksDecodesShifted<K>(latest: bool, lsn: Lsn, region: u32, rel: RelTag,
                                 kinds: SlruCodec<K>)
    ensures Parse(Encode(Nblocks(latest, lsn, region, rel), kinds), 0, kinds)
         == Some(Next(Nblocks(latest, lsn, rel.spcnode,
                              RelTag(rel.dbnode, rel.relnode,
                                     rel.forknum * 0x100_0000 + region / 0x100,
                                     region % 0x100)), 27))
  {
    var s := Encode(Nblocks(latest, lsn, region, rel), kinds);
    NblocksLayout(latest, lsn, region, rel, kinds);
    U64AtImage(s, 2, lsn.value);
    RelFieldsShifted(s, region, rel);
    NblocksParsedShifted(s, latest, lsn, region, rel, kinds);
  }

  lemma NblocksParsedShifted<K>(s: seq<u8>, latest: bool, lsn: Lsn, region: u32, rel: RelTag,
                                kinds: SlruCodec<K>)
    requires 27 <= |s| && s[0] == 1 && s[1] == BoolByte(latest) && U64At(s, 2) == lsn.value
    requires U32At(s, 10) == rel.spcnode && U32At(s, 14) == rel.dbnode
    requires U32At(s, 18) == rel.relnode
    requires U32At(s, 22) == rel.forknum * 0x100_0000 + region / 0x100 && s[26] == region % 0x100
    ensures Parse(s, 0, kinds)
         == Some(Next(Nblocks(latest, lsn, rel.spcnode,
                              RelTag(rel.dbnode, rel.relnode,
                                     rel.forknum * 0x100_0000 + region / 0x100,
                                     region % 0x100)), 27))
  {
    ParseNblocksFields(s, kinds);
  }

  lemma GetPageLayout<K>(latest: bool, lsn: Lsn, region: u32, rel: RelTag, blkno: u32,
                         kinds: SlruCodec<K>)
    ensures var s := Encode(GetPage(latest, lsn, region, rel, blkno), kinds);
      && s[1] == BoolByte(latest)
      && s[2..10] == ToBE(lsn.value, 8)
      && s[10..14] == ToBE(rel.spcnode, 4)
      && s[14..18] == ToBE(rel.dbnode, 4)
      && s[18..22] == ToBE(rel.relnode, 4)
      && s[22] == rel.forknum
      && s[23..27] == ToBE(blkno, 4)
      && s[27..31] == ToBE(region, 4)
  {
    GetPageShapeAsWritten(BoolByte(latest), ToBE(lsn.value, 8), ToBE(rel.spcnode, 4),
                          ToBE(rel.dbnode, 4), ToBE(rel.relnode, 4), rel.forknum, ToBE(blkno, 4),
                          ToBE(region, 4));
  }

  /**
   * GetPage bytes are all consumed, but `relnode` takes `forknum` and the top of
   * `blkno`, `forknum` the low byte of `blkno`, and `blkno` takes `region`.
   */
  lemma GetPageDecodesShifted<K>(latest: bool, lsn: Lsn, region: u32, rel: RelTag, blkno: u32,
                                 kinds: SlruCodec<K>)
    ensures Parse(Encode(GetPage(latest, lsn, region, rel, blkno), kinds), 0, kinds)
         == Some(Next(GetPage(latest, lsn, rel.spcnode,
                              RelTag(rel.dbnode, rel.relnode,
                                     rel.forknum * 0x100_0000 + blkno / 0x100,
                                     blkno % 0x100),
                              region), 31))
  {
    var s := Encode(GetPage(latest, lsn, region, rel, blkno), kinds);
    GetPageLayout(latest, lsn, region, rel, blkno, kinds);
    U64AtImage(s, 2, lsn.value);
    RelFieldsShifted(s, blkno, rel);
    U32AtImage(s, 27, region);
    GetPageParsedShifted(s, latest, lsn, region, rel, blkno, kinds);
  }

  lemma GetPageParsedShifted<K>(s: seq<u8>, latest: bool, lsn: Lsn, region: u32, rel: RelTag,
                                blkno: u32, kinds: SlruCodec<K>)
    requires 31 <= |s| && s[0] == 2 && s[1] == BoolByte(latest) && U64At(s, 2) == lsn.value
    requires U32At(s, 10) == rel.spcnode && U32At(s, 14) == rel.dbnode
    requires U32At(s, 18) == rel.relnode
    requires U32At(s, 22) == rel.forknum * 0x100_0000 + blkno / 0x100 && s[26] == blkno % 0x100
    requires U32At(s, 27) == region
    ensures Parse(s, 0, kinds)
         == Some(Next(GetPage(latest, lsn, rel.spcnode,
                              RelTag(rel.dbnode, rel.relnode,
                                     rel.forknum * 0x100_0000 + blkno / 0x100,
                                     blkno % 0x100),
                              region), 31))
  {
    ParseGetPageFields(s, kinds);
  }

  /** The one variant whose write order matches its read order. */
  lemma DbSizeRoundTrip<K>(latest: bool, lsn: Lsn, dbnode: u32, kinds: SlruCodec<K>)
    ensures Parse(Encode(DbSize(latest, lsn, dbnode), kinds), 0, kinds)
         == Some(Next(DbSize(latest, lsn, dbnode), 14))
  {
    var s := Encode(DbSize(latest, lsn, dbnode), kinds);
    DbSizeShape(3, BoolByte(latest), ToBE(lsn.value, 8), ToBE(dbnode, 4));
    ParseDbSizeFields(s, kinds);
    U64AtImage(s, 2, lsn.value);
    U32AtImage(s, 10, dbnode);
  }

  lemma GetSlruPageLayout<K>(latest: bool, lsn: Lsn, region: u32, kind: K, segno: u32,
                             blkno: u32, checkExistsOnly: bool, kinds: SlruCodec<K>)
    ensures var s := Encode(GetSlruPage(latest, lsn, region, kind, segno, blkno,
                                        checkExistsOnly), kinds);
      && s[1] == BoolByte(latest)
      && s[2..10] == ToBE(lsn.value, 8)
      && s[10] == kinds.toByte(kind)
      && s[11..15] == ToBE(segno, 4)
      && s[15..19] == ToBE(blkno, 4)
      && s[19] == BoolByte(checkExistsOnly)
      && s[20..24] == ToBE(region, 4)
  {
    SlruShapeAsWritten(4, BoolByte(latest), ToBE(lsn.value, 8), kinds.toByte(kind), ToBE(segno, 4),
              ToBE(blkno, 4), BoolByte(checkExistsOnly), ToBE(region, 4));
  }

  /**
   * GetSlruPage bytes as written: `region` takes the kind byte and the top of
   * `segno`, the kind is decoded from the low byte of `segno` (so parsing fails
   * when that byte is no kind), `segno` takes `blkno`, `blkno` takes the flag byte
   * and the top of `region`, and the flag is the low byte of `region`.
   */
  lemma GetSlruPageDecodesShifted<K>(latest: bool, lsn: Lsn, region: u32, kind: K, segno: u32,
                                     blkno: u32, checkExistsOnly: bool, kinds: SlruCodec<K>)
    ensures Parse(Encode(GetSlruPage(latest, lsn, region, kind, segno, blkno, checkExistsOnly),
                         kinds), 0, kinds)
         == match kinds.fromByte(segno % 0x100)
            case None => None
            case Some(k) =>
              Some(Next(GetSlruPage(latest, lsn,
                                    kinds.toByte(kind) * 0x100_0000 + segno / 0x100,
                                    k, blkno,
                                    BoolByte(checkExistsOnly) * 0x100_0000 + region / 0x100,
                                    region % 0x100 != 0), 24))
  {
    var s := Encode(GetSlruPage(latest, lsn, region, kind, segno, blkno, checkExistsOnly), kinds);
    GetSlruPageLayout(latest, lsn, region, kind, segno, blkno, checkExistsOnly, kinds);
    ParseGetSlruPageFields(s, kinds);
    SlruFieldsShifted(s, lsn.value, region, kinds.toByte(kind), segno, blkno,
                      BoolByte(checkExistsOnly));
    SlruParsedShifted(s, latest, lsn, region, kinds.toByte(kind), segno, blkno,
                      BoolByte(checkExistsOnly), kinds);
  }

  lemma SlruParsedShifted<K>(s: seq<u8>, latest: bool, lsn: Lsn, region: u32, k: u8, segno: u32,
                             blkno: u32, c: u8, kinds: SlruCodec<K>)
    requires 24 <= |s| && s[0] == 4 && s[1] == BoolByte(latest) && U64At(s, 2) == lsn.value
    requires U32At(s, 10) == k * 0x100_0000 + segno / 0x100 && s[14] == segno % 0x100
    requires U32At(s, 15) == blkno
    requires U32At(s, 19) == c * 0x100_0000 + region / 0x100 && s[23] == region % 0x100
    ensures Parse(s, 0, kinds)
         == match kinds.fromByte(segno % 0x100)
            case None => None
            case Some(kind) =>
              Some(Next(GetSlruPage(latest, lsn, k * 0x100_0000 + segno / 0x100, kind, blkno,
                                    c * 0x100_0000 + region / 0x100, region % 0x100 != 0), 24))
  {
    ParseGetSlruPageFields(s, kinds);
  }

  /**
   * The bytes after `latest` in a GetSlruPage frame as written, read the way `parse`
   * reads them.
   */
  lemma SlruFieldsShifted(s: seq<u8>, lsn: u64, region: u32, k: u8, segno: u32, blkno: u32,
                          c: u8)
    requires 24 <= |s| && s[2..10] == ToBE(lsn, 8) && s[10] == k && s[11..15] == ToBE(segno, 4)
    requires s[15..19] == ToBE(blkno, 4) && s[19] == c && s[20..24] == ToBE(region, 4)
    ensures U64At(s, 2) == lsn
    ensures U32At(s, 10) == k * 0x100_0000 + segno / 0x100 && s[14] == segno % 0x100
    ensures U32At(s, 15) == blkno
    ensures U32At(s, 19) == c * 0x100_0000 + region / 0x100 && s[23] == region % 0x100
  {
    U64AtImage(s, 2, lsn);
    StraddleAt(s, 10, k, segno);
    U32AtImage(s, 15, blkno);
    StraddleAt(s, 19, c, region);
  }

  /**
   * The intended law, for the encoding that writes fields in the order `parse`
   * reads them: every request comes back whole, and exactly its bytes are consumed.
   */
  lemma RoundTripInFieldOrder<K>(m: PagestreamFeMessage<K>, kinds: SlruCodec<K>)
    requires m.GetSlruPage? ==> kinds.fromByte(kinds.toByte(m.kind)) == Some(m.kind)
    ensures Parse(EncodeInFieldOrder(m, kinds), 0, kinds) == Some(Next(m, FrameLength(Tag(m))))
  {
    match m
    case Exists(latest, lsn, region, rel) =>
      FieldOrderRelRequest(m, kinds);
    case Nblocks(latest, lsn, region, rel) =>
      FieldOrderRelRequest(m, kinds);
    case GetPage(latest, lsn, region, rel, blkno) =>
      FieldOrderRelRequest(m, kinds);
    case DbSize(latest, lsn, dbnode) =>
      DbSizeRoundTrip(latest, lsn, dbnode, kinds);
    case GetSlruPage(latest, lsn, region, kind, segno, blkno, checkExistsOnly) =>
      FieldOrderGetSlruPage(m, kinds);
  }

  lemma FieldOrderRelRequest<K>(m: PagestreamFeMessage<K>, kinds: SlruCodec<K>)
    requires m.Exists? || m.Nblocks? || m.GetPage?
    ensures Parse(EncodeInFieldOrder(m, kinds), 0, kinds) == Some(Next(m, FrameLength(Tag(m))))
  {
    match m
    case Exists(latest, lsn, region, rel) =>
      FieldOrderExists(latest, lsn, region, rel, kinds);
    case Nblocks(latest, lsn, region, rel) =>
      FieldOrderNblocks(latest, lsn, region, rel, kinds);
    case GetPage(latest, lsn, region, rel, blkno) =>
      FieldOrderGetPage(latest, lsn, region, rel, blkno, kinds);
  }

  lemma FieldOrderExists<K>(latest: bool, lsn: Lsn, region: u32, rel: RelTag, kinds: SlruCodec<K>)
    ensures var m := Exists(latest, lsn, region, rel);
      Parse(EncodeInFieldOrder(m, kinds), 0, kinds) == Some(Next(m, 27))
  {
    var s := EncodeInFieldOrder(Exists(latest, lsn, region, rel), kinds);
    RelShapeInFieldOrder(0, BoolByte(latest), ToBE(lsn.value, 8), ToBE(region, 4),
                         ToBE(rel.spcnode, 4), ToBE(rel.dbnode, 4), ToBE(rel.relnode, 4),
                         rel.forknum, []);
    FieldOrderRelFields(s, lsn.value, region, rel);
    ParseExistsFields(s, kinds);
  }

  lemma FieldOrderNblocks<K>(latest: bool, lsn: Lsn, region: u32, rel: RelTag, kinds: SlruCodec<K>)
    ensures var m := Nblocks(latest, lsn, region, rel);
      Parse(EncodeInFieldOrder(m, kinds), 0, kinds) == Some(Next(m, 27))
  {
    var s := EncodeInFieldOrder(Nblocks(latest, lsn, region, rel), kinds);
    RelShapeInFieldOrder(1, BoolByte(latest), ToBE(lsn.value, 8), ToBE(region, 4),
                         ToBE(rel.spcnode, 4), ToBE(rel.dbnode, 4), ToBE(rel.relnode, 4),
                         rel.forknum, []);
    FieldOrderRelFields(s, lsn.value, region, rel);
    ParseNblocksFields(s, kinds);
  }

  lemma FieldOrderGetPage<K>(latest: bool, lsn: Lsn, region: u32, rel: RelTag, blkno: u32,
                             kinds: SlruCodec<K>)
    ensures var m := GetPage(latest, lsn, region, rel, blkno);
      Parse(EncodeInFieldOrder(m, kinds), 0, kinds) == Some(Next(m, 31))
  {
    var s := EncodeInFieldOrder(GetPage(latest, lsn, region, rel, blkno), kinds);
    RelShapeInFieldOrder(2, BoolByte(latest), ToBE(lsn.value, 8), ToBE(region, 4),
                         ToBE(rel.spcnode, 4), ToBE(rel.dbnode, 4), ToBE(rel.relnode, 4),
                         rel.forknum, ToBE(blkno, 4));
    FieldOrderRelFields(s, lsn.value, region, rel);
    U32AtImage(s, 27, blkno);
    ParseGetPageFields(s, kinds);
  }

  /** The fields of a relation request encoded in field order, read back one by one. */
  lemma FieldOrderRelFields(s: seq<u8>, lsn: u64, region: u32, rel: RelTag)
    requires 27 <= |s| && s[2..10] == ToBE(lsn, 8) && s[10..14] == ToBE(region, 4)
    requires s[14..18] == ToBE(rel.spcnode, 4) && s[18..22] == ToBE(rel.dbnode, 4)
    requires s[22..26] == ToBE(rel.relnode, 4)
    ensures U64At(s, 2) == lsn && U32At(s, 10) == region
    ensures U32At(s, 14) == rel.spcnode && U32At(s, 18) == rel.dbnode && U32At(s, 22) == rel.relnode
  {
    U64AtImage(s, 2, lsn);
    U32AtImage(s, 10, region);
    U32AtImage(s, 14, rel.spcnode);
    U32AtImage(s, 18, rel.dbnode);
    U32AtImage(s, 22, rel.relnode);
  }

  lemma FieldOrderGetSlruPage<K>(m: PagestreamFeMessage<K>, kinds: SlruCodec<K>)
    requires m.GetSlruPage? && kinds.fromByte(kinds.toByte(m.kind)) == Some(m.kind)
    ensures Parse(EncodeInFieldOrder(m, kinds), 0, kinds) == Some(Next(m, 24))
  {
    var s := EncodeInFieldOrder(m, kinds);
    SlruShapeInFieldOrder(4, BoolByte(m.latest), ToBE(m.lsn.value, 8), ToBE(m.region, 4),
                          kinds.toByte(m.kind), ToBE(m.segno, 4), ToBE(m.blkno, 4),
                          BoolByte(m.checkExistsOnly));
    U64AtImage(s, 2, m.lsn.value);
    U32AtImage(s, 10, m.region);
    U32AtImage(s, 15, m.segno);
    U32AtImage(s, 19, m.blkno);
    ParseGetSlruPageFields(s, kinds);
  }

  /**
   * The other direction of the intended law: re-encoding what `parse` read gives back
   * the bytes it consumed, provided each bool byte is 0 or 1 and the kind byte is
   * the one the mapping writes for the kind it decodes to.
   */
  lemma ReencodeInFieldOrder<K>(s: seq<u8>, kinds: SlruCodec<K>)
    requires Framed(s, 0, kinds) && s[1] <= 1
    requires s[0] == 4 ==> s[23] <= 1
    requires s[0] == 4 ==> kinds.toByte(kinds.fromByte(s[14]).value) == s[14]
    ensures EncodeInFieldOrder(Parse(s, 0, kinds).value.value, kinds) == s[..FrameLength(s[0])]
  {
    if s[0] == 3 {
      ParseDbSizeFields(s, kinds);
      ToBEFromBE(s[2..10]);
      ToBEFromBE(s[10..14]);
      PrefixSplit(s, 1, 2);
      PrefixSplit(s, 2, 10);
      PrefixSplit(s, 10, 14);
    } else if s[0] == 4 {
      ReencodeGetSlruPage(s, kinds);
    } else {
      ReencodeRelRequest(s, kinds);
    }
  }

  lemma ReencodeRelRequest<K>(s: seq<u8>, kinds: SlruCodec<K>)
    requires Framed(s, 0, kinds) && s[1] <= 1 && s[0] <= 2
    ensures EncodeInFieldOrder(Parse(s, 0, kinds).value.value, kinds) == s[..FrameLength(s[0])]
  {
    RelRequestBytes(s);
    var latest, lsn, region := s[1] != 0, Lsn(U64At(s, 2)), U32At(s, 10);
    var rel := RelTag(U32At(s, 14), U32At(s, 18), U32At(s, 22), s[26]);
    if s[0] == 0 {
      ParseExistsFields(s, kinds);
      assert Parse(s, 0, kinds).value.value == Exists(latest, lsn, region, rel);
    } else if s[0] == 1 {
      ParseNblocksFields(s, kinds);
      assert Parse(s, 0, kinds).value.value == Nblocks(latest, lsn, region, rel);
    } else {
      ParseGetPageFields(s, kinds);
      assert Parse(s, 0, kinds).value.value == GetPage(latest, lsn, region, rel, U32At(s, 27));
      ReencodeU32(s, 27);
    }
  }

  /** The 27 bytes every relation request starts with, as the fields `Parse` reads. */
  lemma RelRequestBytes(s: seq<u8>)
    requires 27 <= |s| && s[1] <= 1
    ensures s[..27] == [s[0]] + [BoolByte(s[1] != 0)] + ToBE(U64At(s, 2), 8) + ToBE(U32At(s, 10), 4)
                       + ToBE(U32At(s, 14), 4) + ToBE(U32At(s, 18), 4) + ToBE(U32At(s, 22), 4) + [s[26]]
  {
    RelRequestSlices(s);
    ToBEFromBE(s[2..10]);
    ToBEFromBE(s[10..14]);
    ToBEFromBE(s[14..18]);
    ToBEFromBE(s[18..22]);
    ToBEFromBE(s[22..26]);
  }

  lemma RelRequestSlices(s: seq<u8>)
    requires 27 <= |s|
    ensures s[..27] == [s[0]] + [s[1]] + s[2..10] + s[10..14] + s[14..18] + s[18..22] + s[22..26]
                       + [s[26]]
  {
    PrefixSplit(s, 1, 2);
    PrefixSplit(s, 2, 10);
    PrefixSplit(s, 10, 14);
    PrefixSplit(s, 14, 18);
    PrefixSplit(s, 18, 22);
    PrefixSplit(s, 22, 26);
    PrefixSplit(s, 26, 27);
  }

  /** Extending a prefix by the image of the u32 read at its end. */
  lemma ReencodeU32(s: seq<u8>, at: nat)
    requires at + 4 <= |s|
    ensures s[..at + 4] == s[..at] + ToBE(U32At(s, at), 4)
  {
    ToBEFromBE(s[at..at + 4]);
    PrefixSplit(s, at, at + 4);
  }

  lemma ReencodeGetSlruPage<K>(s: seq<u8>, kinds: SlruCodec<K>)
    requires Framed(s, 0, kinds) && s[0] == 4 && s[1] <= 1 && s[23] <= 1
    requires kinds.toByte(kinds.fromByte(s[14]).value) == s[14]
    ensures EncodeInFieldOrder(Parse(s, 0, kinds).value.value, kinds) == s[..24]
  {
    ParseGetSlruPageFields(s, kinds);
    var k := kinds.fromByte(s[14]).value;
    var m := GetSlruPage(s[1] != 0, Lsn(U64At(s, 2)), U32At(s, 10), k, U32At(s, 15), U32At(s, 19), s[23] != 0);
    assert Parse(s, 0, kinds).value.value == m;
    GetSlruPageBytes(s);
  }

  /** The 24 bytes of a GetSlruPage request as the fields `Parse` reads from them. */
  lemma GetSlruPageBytes(s: seq<u8>)
    requires 24 <= |s| && s[1] <= 1 && s[23] <= 1
    ensures s[..24] == [s[0]] + [BoolByte(s[1] != 0)] + ToBE(U64At(s, 2), 8) + ToBE(U32At(s, 10), 4)
                       + [s[14]] + ToBE(U32At(s, 15), 4) + ToBE(U32At(s, 19), 4) + [BoolByte(s[23] != 0)]
  {
    SlruSlices(s);
    ToBEFromBE(s[2..10]);
    ToBEFromBE(s[10..14]);
    ToBEFromBE(s[15..19]);
    ToBEFromBE(s[19..23]);
  }

  lemma SlruSlices(s: seq<u8>)
    requires 24 <= |s|
    ensures s[..24] == [s[0]] + [s[1]] + s[2..10] + s[10..14] + [s[14]] + s[15..19] + s[19..23]
                       + [s[23]]
  {
    PrefixSplit(s, 1, 2);
    PrefixSplit(s, 2, 10);
    PrefixSplit(s, 10, 14);
    PrefixSplit(s, 14, 15);
    PrefixSplit(s, 15, 19);
    PrefixSplit(s, 19, 23);
    PrefixSplit(s, 23, 24);
  }

  /**
   * Consequences for the encoding as written: parsing consumes exactly the bytes
   * `serialize` wrote, and it succeeds for every request except a GetSlruPage whose
   * `segno` has a low byte that is no kind.
   */
  lemma EncodedLengthConsumed<K>(m: PagestreamFeMessage<K>, kinds: SlruCodec<K>)
    ensures var r := Parse(Encode(m, kinds), 0, kinds);
      && (r.Some? <==> (m.GetSlruPage? ==> kinds.fromByte(m.segno % 0x100).Some?))
      && (r.Some? ==> Tag(r.value.value) == Tag(m) && r.value.end == |Encode(m, kinds)|)
  {
    if m.GetSlruPage? {
      GetSlruPageLayout(m.latest, m.lsn, m.region, m.kind, m.segno, m.blkno, m.checkExistsOnly,
                        kinds);
      Straddle(0, m.segno);
      assert Encode(m, kinds)[14] == ToBE(m.segno, 4)[3];
    }
  }

  /**
   * `parse` reads a fixed number of bytes per tag and looks no further: whatever
   * follows a complete request changes neither the request nor where it ends.
   */
  lemma TrailingBytesIgnored<K>(s: seq<u8>, t: seq<u8>, kinds: SlruCodec<K>)
    requires Framed(s, 0, kinds)
    ensures Parse(s + t, 0, kinds) == Parse(s, 0, kinds)
  {
    var u := s + t;
    assert u[0] == s[0] && u[1] == s[1];
    U64AtAppend(s, t, 2);
    U32AtAppend(s, t, 10);
    if s[0] == 3 {
      ParseDbSizeFields(s, kinds);
      ParseDbSizeFields(u, kinds);
    } else if s[0] == 4 {
      assert u[14] == s[14] && u[23] == s[23];
      U32AtAppend(s, t, 15);
      U32AtAppend(s, t, 19);
      ParseGetSlruPageFields(s, kinds);
      ParseGetSlruPageFields(u, kinds);
    } else {
      TrailingBytesIgnoredRel(s, t, kinds);
    }
  }

  lemma TrailingBytesIgnoredRel<K>(s: seq<u8>, t: seq<u8>, kinds: SlruCodec<K>)
    requires Framed(s, 0, kinds) && s[0] <= 2
    ensures Parse(s + t, 0, kinds) == Parse(s, 0, kinds)
  {
    var u := s + t;
    assert u[0] == s[0] && u[1] == s[1] && u[26] == s[26];
    U64AtAppend(s, t, 2);
    U32AtAppend(s, t, 10);
    U32AtAppend(s, t, 14);
    U32AtAppend(s, t, 18);
    U32AtAppend(s, t, 22);
    if s[0] == 0 {
      ParseExistsFields(s, kinds);
      ParseExistsFields(u, kinds);
    } else if s[0] == 1 {
      ParseNblocksFields(s, kinds);
      ParseNblocksFields(u, kinds);
    } else {
      U32AtAppend(s, t, 27);
      ParseGetPageFields(s, kinds);
      ParseGetPageFields(u, kinds);
    }
  }

  // The message vectors of the source's `test_pagestream`, with the outcome the
  // as-written codec gives each: only DbSize is reconstructed.

  function TestExists<K>(): PagestreamFeMessage<K> { Exists(true, Lsn(4), 0, RelTag(2, 3, 4, 1)) }
  function TestNblocks<K>(): PagestreamFeMessage<K> { Nblocks(false, Lsn(4), 0, RelTag(2, 3, 4, 1)) }
  function TestGetPage<K>(): PagestreamFeMessage<K> { GetPage(true, Lsn(4), 0, RelTag(2, 3, 4, 1), 7) }
  function TestDbSize<K>(): PagestreamFeMessage<K> { DbSize(true, Lsn(4), 7) }

  lemma TestExistsOutcome<K>(kinds: SlruCodec<K>)
    ensures Parse(Encode(TestExists(), kinds), 0, kinds)
         == Some(Next(Exists(true, Lsn(4), 2, RelTag(3, 4, 0x100_0000, 0)), 27))
    ensures Parse(Encode(TestExists(), kinds), 0, kinds).value.value != TestExists()
  {
    ExistsDecodesShifted(true, Lsn(4), 0, RelTag(2, 3, 4, 1), kinds);
  }

  lemma TestNblocksOutcome<K>(kinds: SlruCodec<K>)
    ensures Parse(Encode(TestNblocks(), kinds), 0, kinds)
         == Some(Next(Nblocks(false, Lsn(4), 2, RelTag(3, 4, 0x100_0000, 0)), 27))
    ensures Parse(Encode(TestNblocks(), kinds), 0, kinds).value.value != TestNblocks()
  {
    NblocksDecodesShifted(false, Lsn(4), 0, RelTag(2, 3, 4, 1), kinds);
  }

  lemma TestGetPageOutcome<K>(kinds: SlruCodec<K>)
    ensures Parse(Encode(TestGetPage(), kinds), 0, kinds)
         == Some(Next(GetPage(true, Lsn(4), 2, RelTag(3, 4, 0x100_0000, 7), 0), 31))
    ensures Parse(Encode(TestGetPage(), kinds), 0, kinds).value.value != TestGetPage()
  {
    var rel := RelTag(2, 3, 4, 1);
    GetPageDecodesShifted(true, Lsn(4), 0, rel, 7, kinds);
    assert rel.forknum * 0x100_0000 + 7 / 0x100 == 0x100_0000 && 7 % 0x100 == 7;
  }

  lemma TestDbSizeOutcome<K>(kinds: SlruCodec<K>)
    ensures Parse(Encode(TestDbSize(), kinds), 0, kinds) == Some(Next(TestDbSize(), 14))
  {
    DbSizeRoundTrip(true, Lsn(4), 7, kinds);
  }

  /** The GetPage vector's bytes: tag, latest, lsn, the relation, blkno, then region. */
  lemma TestGetPageBytes<K>(kinds: SlruCodec<K>)
    ensures Encode(TestGetPage(), kinds)
         == [2] + [1] + [0, 0, 0, 0, 0, 0, 0, 4] + [0, 0, 0, 2] + [0, 0, 0, 3] + [0, 0, 0, 4]
            + [1] + [0, 0, 0, 7] + [0, 0, 0, 0]
  {
    assert ToBE(4, 8) == [0, 0, 0, 0, 0, 0, 0, 4];
    assert ToBE(2, 4) == [0, 0, 0, 2];
    assert ToBE(3, 4) == [0, 0, 0, 3];
    assert ToBE(4, 4) == [0, 0, 0, 4];
    assert ToBE(7, 4) == [0, 0, 0, 7];
    assert ToBE(0, 4) == [0, 0, 0, 0];
  }

  /**
   * `parse` takes any non-zero byte as `true`, and both encodings write `true` as 1:
   * a frame whose `latest` byte is above 1 does not come back from parse-then-serialize.
   */
  lemma LatestByteNormalised<K>(s: seq<u8>, kinds: SlruCodec<K>)
    requires Framed(s, 0, kinds) && 1 < s[1]
    ensures Parse(s, 0, kinds).value.value.latest
    ensures Encode(Parse(s, 0, kinds).value.value, kinds)[1] == 1
    ensures EncodeInFieldOrder(Parse(s, 0, kinds).value.value, kinds)[1] == 1
  {
    if s[0] == 0 {
      ParseExistsFields(s, kinds);
    } else if s[0] == 1 {
      ParseNblocksFields(s, kinds);
    } else if s[0] == 2 {
      ParseGetPageFields(s, kinds);
    } else if s[0] == 3 {
      ParseDbSizeFields(s, kinds);
    } else {
      ParseGetSlruPageFields(s, kinds);
    }
  }

  // Where each piece of a frame lands, for frames built from pieces of fixed length.
  // Stated over arbitrary pieces, so that no encoding function is in sight.

  lemma RelShapeAsWritten(tag: u8, b: u8, lsn: seq<u8>, x: seq<u8>, y: seq<u8>, z: seq<u8>,
                          f: u8, last: seq<u8>)
    requires |lsn| == 8 && |x| == 4 && |y| == 4 && |z| == 4 && |last| == 4
    ensures var s := [tag] + [b] + lsn + x + y + z + [f] + last;
      && s[1] == b && s[2..10] == lsn && s[10..14] == x && s[14..18] == y && s[18..22] == z
      && s[22] == f && s[23..27] == last
  {
  }

  lemma GetPageShapeAsWritten(b: u8, lsn: seq<u8>, x: seq<u8>, y: seq<u8>, z: seq<u8>, f: u8,
                              blkno: seq<u8>, last: seq<u8>)
    requires |lsn| == 8 && |x| == 4 && |y| == 4 && |z| == 4 && |blkno| == 4 && |last| == 4
    ensures var s := [2] + [b] + lsn + x + y + z + [f] + blkno + last;
      && s[1] == b && s[2..10] == lsn && s[10..14] == x && s[14..18] == y && s[18..22] == z
      && s[22] == f && s[23..27] == blkno && s[27..31] == last
  {
  }

  lemma SlruShapeAsWritten(tag: u8, b: u8, lsn: seq<u8>, k: u8, segno: seq<u8>, blkno: seq<u8>,
                           c: u8, last: seq<u8>)
    requires |lsn| == 8 && |segno| == 4 && |blkno| == 4 && |last| == 4
    ensures var s := [tag] + [b] + lsn + [k] + segno + blkno + [c] + last;
      && s[1] == b && s[2..10] == lsn && s[10] == k && s[11..15] == segno
      && s[15..19] == blkno && s[19] == c && s[20..24] == last
  {
  }

  lemma DbSizeShape(tag: u8, b: u8, lsn: seq<u8>, d: seq<u8>)
    requires |lsn| == 8 && |d| == 4
    ensures var s := [tag] + [b] + lsn + d;
      && s[1] == b && s[2..10] == lsn && s[10..14] == d
  {
  }

  lemma RelShapeInFieldOrder(tag: u8, b: u8, lsn: seq<u8>, region: seq<u8>, x: seq<u8>,
                             y: seq<u8>, z: seq<u8>, f: u8, tail: seq<u8>)
    requires |lsn| == 8 && |region| == 4 && |x| == 4 && |y| == 4 && |z| == 4
    ensures var s := [tag] + [b] + lsn + region + x + y + z + [f] + tail;
      && s[1] == b && s[2..10] == lsn && s[10..14] == region && s[14..18] == x
      && s[18..22] == y && s[22..26] == z && s[26] == f && s[27..] == tail
  {
  }

  lemma SlruShapeInFieldOrder(tag: u8, b: u8, lsn: seq<u8>, region: seq<u8>, k: u8,
                              segno: seq<u8>, blkno: seq<u8>, c: u8)
    requires |lsn| == 8 && |region| == 4 && |segno| == 4 && |blkno| == 4
    ensures var s := [tag] + [b] + lsn + region + [k] + segno + blkno + [c];
      && s[1] == b && s[2..10] == lsn && s[10..14] == region && s[14] == k
      && s[15..19] == segno && s[19..23] == blkno && s[23] == c
  {
  }
}
