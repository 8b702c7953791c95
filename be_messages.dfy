/**
 * Server-to-compute Pagestream responses (`PagestreamBeMessage`): the message
 * datatype, its byte image as `serialize` writes it, and a reference decoder
 * that undoes it.
 */
module PagestreamBe {
  import opened Wrappers
  import opened Wire

  /**
   * A response. Each variant carries the fields of its response struct
   * (`PagestreamExistsResponse`, ...). Its `exists` flag is named `relExists`
   * here, `exists` being a Dafny keyword, and the optional SLRU `page` is named
   * `slruPage`; an error message is the bytes of its string.
   */
  datatype PagestreamBeMessage =
    | Exists(lsn: Lsn, relExists: bool)
    | Nblocks(lsn: Lsn, nBlocks: u32)
    | GetPage(lsn: Lsn, page: seq<u8>)
    | GetSlruPage(lsn: Lsn, segExists: bool, slruPage: Option<seq<u8>>)
    | Error(message: seq<u8>)
    | DbSize(lsn: Lsn, dbSize: i64)

  /** The frozen response tags, shared with the compute node's client. */
  function Tag(m: PagestreamBeMessage): (r: u8)
    ensures 100 <= r <= 105
    ensures (r == 100 <==> m.Exists?) && (r == 101 <==> m.Nblocks?) && (r == 102 <==> m.GetPage?)
    ensures (r == 103 <==> m.GetSlruPage?) && (r == 104 <==> m.Error?) && (r == 105 <==> m.DbSize?)
  {
    match m
    case Exists(_, _) => 100
    case Nblocks(_, _) => 101
    case GetPage(_, _) => 102
    case GetSlruPage(_, _, _) => 103
    case Error(_) => 104
    case DbSize(_, _) => 105
  }

  /**
   * The bytes `PagestreamBeMessage::serialize` produces: the tag, then the fields
   * in declaration order. A page is written raw, so only the frame around a
   * response delimits it; an SLRU page is preceded by a presence byte; an error
   * message is followed by a NUL byte; the database size is written as the
   * two's-complement image of the i64.
   */
  function Encode(m: PagestreamBeMessage): (r: seq<u8>)
    ensures 2 <= |r| && r[0] == Tag(m)
    ensures m.Exists? ==> |r| == 10 && r[9] <= 1
    ensures m.Nblocks? ==> |r| == 13
    ensures m.GetPage? ==> |r| == 9 + |m.page| && r[9..] == m.page
    ensures m.GetSlruPage? ==> 11 <= |r| && r[9] <= 1 && match m.slruPage
      case None => |r| == 11 && r[10] == 0
      case Some(p) => |r| == 11 + |p| && r[10] == 1 && r[11..] == p
    ensures m.Error? ==> |r| == |m.message| + 2 && r[1..|r| - 1] == m.message && r[|r| - 1] == 0
    ensures m.DbSize? ==> |r| == 17
  {
    match m
    case Exists(lsn, relExists) =>
      [100] + ToBE(lsn.value, 8) + [BoolByte(relExists)]
    case Nblocks(lsn, nBlocks) =>
      [101] + ToBE(lsn.value, 8) + ToBE(nBlocks, 4)
    case GetPage(lsn, page) =>
      [102] + ToBE(lsn.value, 8) + page
    case GetSlruPage(lsn, segExists, page) =>
      [103] + ToBE(lsn.value, 8) + [BoolByte(segExists)]
      + (match page case Some(p) => [1] + p case None => [0])
    case Error(message) =>
      [104] + message + [0]
    case DbSize(lsn, dbSize) =>
      [105] + ToBE(lsn.value, 8) + ToBE(TwosComplement(dbSize), 8)
  }

  /**
   * A reference decoder for one whole response frame, the inverse of `Encode`
   * (the source has no response parser of its own). It is strict: flag bytes
   * must be 0 or 1, fixed-size responses must have their exact length, and an
   * error message runs to the first NUL, which must be the last byte.
   */
  function Decode(s: seq<u8>): (r: Option<PagestreamBeMessage>)
    ensures r.Some? ==> 0 < |s| && s[0] == Tag(r.value)
  {
    if |s| == 0 then None
    else
      match s[0]
      case 100 =>
        if |s| == 10 && s[9] <= 1 then Some(Exists(Lsn(U64At(s, 1)), s[9] == 1)) else None
      case 101 =>
        if |s| == 13 then Some(Nblocks(Lsn(U64At(s, 1)), U32At(s, 9))) else None
      case 102 =>
        if 9 <= |s| then Some(GetPage(Lsn(U64At(s, 1)), s[9..])) else None
      case 103 =>
        if 11 <= |s| && s[9] <= 1 && (s[10] == 1 || (s[10] == 0 && |s| == 11)) then
          Some(GetSlruPage(Lsn(U64At(s, 1)), s[9] == 1, if s[10] == 1 then Some(s[11..]) else None))
        else None
      case 104 =>
        if 2 <= |s| && s[|s| - 1] == 0 && 0 !in s[1..|s| - 1] then Some(Error(s[1..|s| - 1]))
        else None
      case 105 =>
        if |s| == 17 then Some(DbSize(Lsn(U64At(s, 1)), FromTwosComplement(U64At(s, 9)))) else None
      case _ => None
  }

  /**
   * Decoding undoes `Encode` for every response except an error whose message
   * holds a NUL byte: the client stops reading such a message at that byte.
   */
  lemma DecodeEncode(m: PagestreamBeMessage)
    ensures Decode(Encode(m)) == Some(m) <==> !(m.Error? && 0 in m.message)
  {
    match m
    case Exists(lsn, relExists) =>
      ExistsDecodes(lsn, relExists);
    case Nblocks(lsn, nBlocks) =>
      NblocksDecodes(lsn, nBlocks);
    case GetPage(lsn, page) =>
      GetPageDecodes(lsn, page);
    case GetSlruPage(lsn, segExists, page) =>
      GetSlruPageDecodes(lsn, segExists, page);
    case Error(message) =>
      ErrorDecodes(message);
    case DbSize(lsn, dbSize) =>
      DbSizeDecodes(lsn, dbSize);
  }

  lemma ExistsDecodes(lsn: Lsn, relExists: bool)
    ensures Decode(Encode(Exists(lsn, relExists))) == Some(Exists(lsn, relExists))
  {
    var s := Encode(Exists(lsn, relExists));
    LsnThen(100, ToBE(lsn.value, 8), [BoolByte(relExists)]);
    U64AtImage(s, 1, lsn.value);
  }

  lemma NblocksDecodes(lsn: Lsn, nBlocks: u32)
    ensures Decode(Encode(Nblocks(lsn, nBlocks))) == Some(Nblocks(lsn, nBlocks))
  {
    var s := Encode(Nblocks(lsn, nBlocks));
    LsnThen(101, ToBE(lsn.value, 8), ToBE(nBlocks, 4));
    U64AtImage(s, 1, lsn.value);
    U32AtImage(s, 9, nBlocks);
  }

  lemma GetPageDecodes(lsn: Lsn, page: seq<u8>)
    ensures Decode(Encode(GetPage(lsn, page))) == Some(GetPage(lsn, page))
  {
    var s := Encode(GetPage(lsn, page));
    LsnThen(102, ToBE(lsn.value, 8), page);
    U64AtImage(s, 1, lsn.value);
  }

  /** The size comes back through its two's-complement image, negative sizes included. */
  lemma DbSizeDecodes(lsn: Lsn, dbSize: i64)
    ensures Decode(Encode(DbSize(lsn, dbSize))) == Some(DbSize(lsn, dbSize))
  {
    var s := Encode(DbSize(lsn, dbSize));
    LsnThen(105, ToBE(lsn.value, 8), ToBE(TwosComplement(dbSize), 8));
    U64AtImage(s, 1, lsn.value);
    U64AtImage(s, 9, TwosComplement(dbSize));
    TwosComplementInverse(dbSize);
  }

  lemma GetSlruPageDecodes(lsn: Lsn, segExists: bool, page: Option<seq<u8>>)
    ensures Decode(Encode(GetSlruPage(lsn, segExists, page))) == Some(GetSlruPage(lsn, segExists, page))
  {
    var s := Encode(GetSlruPage(lsn, segExists, page));
    match page
    case None =>
      LsnThen(103, ToBE(lsn.value, 8), [BoolByte(segExists)] + [0]);
      U64AtImage(s, 1, lsn.value);
      assert s[9] == BoolByte(segExists) && s[10] == 0 && |s| == 11;
    case Some(p) =>
      LsnThen(103, ToBE(lsn.value, 8), [BoolByte(segExists)] + ([1] + p));
      U64AtImage(s, 1, lsn.value);
      assert s[9] == BoolByte(segExists) && s[10] == 1;
      assert s[11..] == p;
  }

  lemma ErrorDecodes(message: seq<u8>)
    ensures Decode(Encode(Error(message))) == Some(Error(message)) <==> 0 !in message
  {
    var s := Encode(Error(message));
    assert s[1..|s| - 1] == message;
  }

  /**
   * The other direction: a frame the decoder accepts is exactly the encoding of
   * what it decodes to.
   */
  lemma EncodeDecode(s: seq<u8>)
    requires Decode(s).Some?
    ensures Encode(Decode(s).value) == s
  {
    if s[0] == 104 {
      assert s == [s[0]] + s[1..|s| - 1] + [s[|s| - 1]];
    } else {
      LsnFrameDecodes(s);
    }
  }

  /** `EncodeDecode` for the responses that start with an lsn. */
  lemma LsnFrameDecodes(s: seq<u8>)
    requires Decode(s).Some? && s[0] != 104
    ensures Encode(Decode(s).value) == s
  {
    ToBEFromBE(s[1..9]);
    HeadThen(s, 9);
    if s[0] == 100 {
      assert s[9..] == [s[9]];
    } else if s[0] == 101 {
      ToBEFromBE(s[9..13]);
      assert s[9..] == s[9..13];
    } else if s[0] == 103 {
      assert s[9..] == [s[9]] + [s[10]] + s[11..];
    } else if s[0] == 105 {
      ToBEFromBE(s[9..17]);
      assert s[9..] == s[9..17];
    }
  }

  /** A frame that starts with a tag and an eight-byte lsn, read back piece by piece. */
  lemma LsnThen(tag: u8, lsn: seq<u8>, rest: seq<u8>)
    requires |lsn| == 8
    ensures var s := [tag] + lsn + rest; s[1..9] == lsn && s[9..] == rest && |s| == 9 + |rest|
  {
  }

  /** A byte string as its first byte, the next `n - 1` bytes and the remainder. */
  lemma HeadThen(s: seq<u8>, n: nat)
    requires 1 <= n <= |s|
    ensures s == [s[0]] + s[1..n] + s[n..]
  {
  }
}
