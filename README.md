# Pagestream codec of the pageserver API

This project models the binary "pagestream" protocol a compute node and the pageserver use to talk to each other, as defined in `libs/pageserver_api/src/models.rs`. It also models the tenant-state query `has_in_progress_downloads`.

- **Requests** (`PagestreamFeMessage`) go from the compute node to the pageserver.
  - There are five kinds: relation exists, relation size in blocks, get page, database size, and get SLRU page.
  - `serialize` writes each request as a tag byte (0–4) followed by fixed-width big-endian fields.
  - `parse` reads a request back from a byte stream. Any read can fail.
- **Responses** (`PagestreamBeMessage`) go from the pageserver to the compute node.
  - They carry tags 100–105 and are only serialized.
  - A page is written raw.
  - An SLRU page comes after a presence byte.
  - An error message is written with a NUL byte after it.
  - The database size is written as a two's-complement i64.

Modules:

- `Wire`:
  - the fixed-width integers and `Lsn`;
  - big-endian images and their inverse (`put_u32` / `read_u32::<BigEndian>` and friends);
  - two's complement;
  - readers that consume a prefix at a cursor.
- `States`: `TenantState` with `HasInProgressDownloads`, and `TimelineState` as a datatype.
- `PagestreamFe`:
  - the request datatype;
  - `Encode`, the bytes `serialize` writes;
  - `EncodeInFieldOrder`, the corrected encoding (see Findings);
  - `Parse`, split into one arm per tag as in the source's `match`.
- `PagestreamBe`: the response datatype, `Encode`, and a strict reference decoder `Decode`.
- `ByteIo`: the two stateful byte-stream objects.
  - `BytesMut` is a buffer that only grows at its end.
  - `Reader` is input data with a cursor.
- `Pagestream`: the operations as the source runs them.
  - `SerializeRequest` and `SerializeResponse` append field by field.
  - `ParseRequest` reads field by field and stops at the first failed read.
  - Each of these methods is proved equal to the matching function in `PagestreamFe` or `PagestreamBe`.
- `PagestreamLaws`: what parsing a serialized request gives back. This covers:
  - the encoding as written;
  - the corrected encoding, in both directions;
  - the vectors of the source's `test_pagestream`.

The source's own test `test_pagestream` (`libs/pageserver_api/src/models.rs:533-582`) asserts that every request it builds survives serialize-then-parse (lines 577-581). The code does not do that: `serialize` writes `region` after the relation or SLRU fields, while `parse` reads `region` right after `lsn`. The model follows the code, and the disagreement between test and code is the finding below.

## Model

| member | source | states |
|---|---|---|
| States.TenantState.HasInProgressDownloads | libs/pageserver_api/src/models.rs:32-41 | Downloads are in progress exactly when the tenant is Loading or Attaching. There are none when it is Active, Stopping or Broken. |
| Wire.FromBEToBE | libs/pageserver_api/src/models.rs:359-364 | Reading back the n-byte big-endian image of a value below 256^n gives that value. |
| Wire.ToBEFromBE | libs/pageserver_api/src/models.rs:423-429 | Every byte string is the big-endian image of the value it is read as, so field reads are one-to-one. |
| Wire.FromTwosComplement | libs/pageserver_api/src/models.rs:519 | The i64 denoted by a bit pattern has that bit pattern as its two's-complement image. |
| Wire.TwosComplement | libs/pageserver_api/src/models.rs:519 | The `put_i64` image agrees with the value modulo 2^64, and has its top bit set exactly for negative values. |
| PagestreamFe.Encode | libs/pageserver_api/src/models.rs:351-410 | A serialized request is the fixed frame length for its tag, and starts with its tag. |
| PagestreamFe.EncodeInFieldOrder | libs/pageserver_api/src/models.rs:421-470 | The corrected serialization has the same frame length and tag as Encode. |
| PagestreamFe.Parse | libs/pageserver_api/src/models.rs:412-473 | Parsing succeeds exactly when the tag is known (0–4), the bytes cover that tag's full frame, and, for GetSlruPage, the kind byte maps to a kind. On success the message carries that tag and the cursor ends at the frame's end. |
| PagestreamFe.ParseExists | libs/pageserver_api/src/models.rs:421-431 | The Exists arm succeeds exactly when at least 26 bytes remain after the tag. It returns an Exists request and moves the cursor 26 bytes. |
| PagestreamFe.ParseNblocks | libs/pageserver_api/src/models.rs:432-442 | The Nblocks arm succeeds exactly when at least 26 bytes remain. It returns an Nblocks request and moves the cursor 26 bytes. |
| PagestreamFe.ParseGetPage | libs/pageserver_api/src/models.rs:443-454 | The GetPage arm succeeds exactly when at least 30 bytes remain. It returns a GetPage request and moves the cursor 30 bytes. |
| PagestreamFe.ParseDbSize | libs/pageserver_api/src/models.rs:455-459 | The DbSize arm succeeds exactly when at least 13 bytes remain. It returns a DbSize request and moves the cursor 13 bytes. |
| PagestreamFe.ParseGetSlruPage | libs/pageserver_api/src/models.rs:460-470 | The GetSlruPage arm succeeds exactly when at least 23 bytes remain and the 14th byte after the tag is a kind the mapping knows. It moves the cursor 23 bytes. |
| PagestreamLaws.ParseExistsFields | libs/pageserver_api/src/models.rs:421-431 | Gives the byte offsets from which each Exists field is read: region at 10, then the relation fields at 14, 18, 22 and 26. |
| PagestreamLaws.ParseNblocksFields | libs/pageserver_api/src/models.rs:432-442 | Gives the offsets of each Nblocks field. |
| PagestreamLaws.ParseGetPageFields | libs/pageserver_api/src/models.rs:443-454 | Gives the offsets of each GetPage field, with blkno at 27. |
| PagestreamLaws.ParseDbSizeFields | libs/pageserver_api/src/models.rs:455-459 | Gives the offsets of each DbSize field. |
| PagestreamLaws.ParseGetSlruPageFields | libs/pageserver_api/src/models.rs:460-470 | Gives the offsets of each GetSlruPage field. Parsing fails exactly when the byte at 14 is no kind. |
| PagestreamLaws.ExistsLayout | libs/pageserver_api/src/models.rs:356-365 | Gives the offsets at which serialize writes each Exists field, with region last at 23–26. |
| PagestreamLaws.NblocksLayout | libs/pageserver_api/src/models.rs:367-376 | Gives the offsets at which serialize writes each Nblocks field. |
| PagestreamLaws.GetPageLayout | libs/pageserver_api/src/models.rs:378-388 | Gives the offsets at which serialize writes each GetPage field, with blkno before region. |
| PagestreamLaws.GetSlruPageLayout | libs/pageserver_api/src/models.rs:397-406 | Gives the offsets at which serialize writes each GetSlruPage field, with region last. |
| PagestreamLaws.ExistsDecodesShifted | libs/pageserver_api/src/models.rs:356-365 | Parsing a serialized Exists consumes all 27 bytes but gives back a shifted request. Region gets spcnode, spcnode gets dbnode, dbnode gets relnode, relnode gets forknum plus the top three bytes of region, and forknum gets region's low byte. |
| PagestreamLaws.NblocksDecodesShifted | libs/pageserver_api/src/models.rs:367-376 | The same shift holds for Nblocks. |
| PagestreamLaws.GetPageDecodesShifted | libs/pageserver_api/src/models.rs:378-388 | The same shift holds for GetPage, except that relnode takes forknum and the top three bytes of blkno, forknum takes blkno's low byte, and blkno takes region. |
| PagestreamLaws.GetSlruPageDecodesShifted | libs/pageserver_api/src/models.rs:397-406 | For GetSlruPage as written, the kind is decoded from segno's low byte, and parsing fails when that byte is no kind. Otherwise region, segno, blkno and the flag are each filled from shifted bytes. |
| PagestreamLaws.DbSizeRoundTrip | libs/pageserver_api/src/models.rs:390-395 | DbSize is the one request whose write order matches its read order: serialize-then-parse gives it back and consumes its 14 bytes. |
| PagestreamLaws.EncodedLengthConsumed | libs/pageserver_api/src/models.rs:351-473 | Parsing a serialized request consumes exactly the bytes written and keeps the tag. It succeeds for every request except exactly a GetSlruPage whose segno has a low byte that is no kind. |
| PagestreamLaws.RoundTripInFieldOrder | libs/pageserver_api/src/models.rs:272-313 | With fields written in declaration order (the order parse reads them), every request comes back whole and its frame is consumed. For GetSlruPage this needs the kind's byte to map back to the kind. |
| PagestreamLaws.ReencodeInFieldOrder | libs/pageserver_api/src/models.rs:412-473 | Re-encoding a parsed frame in field order gives back exactly the consumed bytes, provided the bool bytes are 0 or 1 and the kind byte is the one the mapping writes. |
| PagestreamLaws.TrailingBytesIgnored | libs/pageserver_api/src/models.rs:412-473 | Parse reads a fixed-size frame per tag: bytes appended after a complete frame change neither the result nor the end position. |
| PagestreamLaws.LatestByteNormalised | libs/pageserver_api/src/models.rs:422 | Any non-zero `latest` byte parses as true, and both encodings write it back as 1. A frame with a latest byte above 1 therefore does not survive parse-then-serialize. |
| PagestreamLaws.TestExistsOutcome | libs/pageserver_api/src/models.rs:537-547 | For the test's Exists vector, parse(serialize(m)) is Exists(true, 4, region 2, rel (3, 4, 0x1000000, 0)), which differs from m. So the assertion at line 580 fails for this vector. |
| PagestreamLaws.TestNblocksOutcome | libs/pageserver_api/src/models.rs:548-558 | For the test's Nblocks vector, the same shifted request comes back, which differs from the vector. |
| PagestreamLaws.TestGetPageOutcome | libs/pageserver_api/src/models.rs:559-570 | For the test's GetPage vector, region 2, rel (3, 4, 0x1000000, 7) and blkno 0 come back, which differs from the vector. |
| PagestreamLaws.TestDbSizeOutcome | libs/pageserver_api/src/models.rs:571-580 | The test's DbSize vector is reconstructed exactly. |
| PagestreamLaws.TestGetPageBytes | libs/pageserver_api/src/models.rs:378-388 | Gives the 31 bytes serialize writes for the test's GetPage vector. |
| PagestreamBe.Encode | libs/pageserver_api/src/models.rs:476-524 | Each response starts with its tag. It then has the length and content of its layout. Exists is 10 bytes and Nblocks 13. GetPage is 9 + the page. GetSlruPage is 11, or 11 + the page after a 1 byte. Error is the message between the tag and the final NUL. DbSize is 17. |
| PagestreamBe.Decode | libs/pageserver_api/src/models.rs:476-524 | A frame the reference decoder accepts starts with the tag of the response it decodes to. |
| PagestreamBe.DecodeEncode | libs/pageserver_api/src/models.rs:476-524 | Decoding a serialized response gives it back, exactly unless it is an error message containing a NUL byte. |
| PagestreamBe.ErrorDecodes | libs/pageserver_api/src/models.rs:511-515 | An error response comes back exactly when its message has no NUL byte. |
| PagestreamBe.DbSizeDecodes | libs/pageserver_api/src/models.rs:516-520 | The database size, negative values included, comes back through its two's-complement image. |
| PagestreamBe.GetSlruPageDecodes | libs/pageserver_api/src/models.rs:499-509 | An SLRU response comes back with both its flag and its page presence. |
| PagestreamBe.EncodeDecode | libs/pageserver_api/src/models.rs:476-524 | Every frame the decoder accepts is exactly the serialization of what it decodes to. |
| ByteIo.BytesMut.PutU32 | libs/pageserver_api/src/models.rs:360 | `put_u32` appends the four big-endian bytes of its argument and leaves the rest unchanged. |
| ByteIo.BytesMut.PutI64 | libs/pageserver_api/src/models.rs:519 | `put_i64` appends the eight bytes of the two's-complement image. |
| ByteIo.Reader.ReadBE | libs/pageserver_api/src/models.rs:423-424 | The loop reads n bytes one at a time and succeeds exactly when at least n bytes remain. It yields their big-endian value and advances the cursor n bytes. |
| ByteIo.Reader.ReadU32 | libs/pageserver_api/src/models.rs:424 | `read_u32::<BigEndian>` agrees with the cursor-function reader on success, value and new position. |
| ByteIo.Reader.ReadU8 | libs/pageserver_api/src/models.rs:419 | `read_u8` agrees with the cursor-function reader. |
| Pagestream.SerializeRequest | libs/pageserver_api/src/models.rs:351-410 | The sequence of puts into a fresh buffer produces exactly `PagestreamFe.Encode`. |
| Pagestream.SerializeResponse | libs/pageserver_api/src/models.rs:476-524 | The bytes the puts produce are exactly `PagestreamBe.Encode`. |
| Pagestream.ParseRequest | libs/pageserver_api/src/models.rs:412-473 | Reading from the stream succeeds exactly when `PagestreamFe.Parse` does at the cursor. On success it gives the same request and leaves the cursor where Parse ends. |
| Pagestream.ReadGetSlruPage | libs/pageserver_api/src/models.rs:460-470 | The GetSlruPage arm, read field by field, agrees with `PagestreamFe.ParseGetSlruPage`, including failure on an unknown kind byte. |
| Pagestream.ReadExists | libs/pageserver_api/src/models.rs:421-431 | The Exists arm, read field by field, agrees with `PagestreamFe.ParseExists` on success, value and new position. |
| Wire.ReadU8 | libs/pageserver_api/src/models.rs:419 | `read_u8` at a cursor succeeds exactly when at least one byte remains, and then yields that byte and advances the cursor by one. |
| Wire.ReadU32 | libs/pageserver_api/src/models.rs:424 | `read_u32::<BigEndian>` at a cursor succeeds exactly when at least four bytes remain, and then yields their big-endian value and advances the cursor by four. |
| Wire.ReadU64 | libs/pageserver_api/src/models.rs:423 | `read_u64::<BigEndian>` at a cursor succeeds exactly when at least eight bytes remain, and then yields their big-endian value and advances the cursor by eight. |
| Wire.BoolByte | libs/pageserver_api/src/models.rs:358 | A bool is written as a byte that is at most 1 and is non-zero exactly when the bool is true (also `as u8` at line 484). |
| PagestreamFe.Tag | libs/pageserver_api/src/models.rs:357-398 | The request tags are 0 to 4, and each tag value belongs to exactly one variant: Exists 0, Nblocks 1, GetPage 2, DbSize 3, GetSlruPage 4. |
| PagestreamBe.Tag | libs/pageserver_api/src/models.rs:482-517 | The response tags are 100 to 105, and each tag value belongs to exactly one variant: Exists 100, Nblocks 101, GetPage 102, GetSlruPage 103, Error 104, DbSize 105. |
| PagestreamBe.ExistsDecodes | libs/pageserver_api/src/models.rs:481-485 | An Exists response decodes back to its lsn and its exists flag. |
| PagestreamBe.NblocksDecodes | libs/pageserver_api/src/models.rs:487-491 | An Nblocks response decodes back to its lsn and its block count. |
| PagestreamBe.GetPageDecodes | libs/pageserver_api/src/models.rs:493-497 | A GetPage response decodes back to its lsn and its page, whatever the page's length. |
| ByteIo.BytesMut.PutU8 | libs/pageserver_api/src/models.rs:357 | `put_u8` appends its byte and leaves the rest unchanged. |
| ByteIo.BytesMut.PutU64 | libs/pageserver_api/src/models.rs:359 | `put_u64` appends the eight big-endian bytes of its argument and leaves the rest unchanged. |
| ByteIo.BytesMut.Put | libs/pageserver_api/src/models.rs:496 | `put` appends the given bytes as they are and leaves the rest unchanged. |
| ByteIo.Reader.ReadU64 | libs/pageserver_api/src/models.rs:423 | `read_u64::<BigEndian>` agrees with the cursor-function reader on success, value and new position. |
| Pagestream.ReadNblocks | libs/pageserver_api/src/models.rs:432-442 | The Nblocks arm, read field by field, agrees with `PagestreamFe.ParseNblocks` on success, value and new position. |
| Pagestream.ReadGetPage | libs/pageserver_api/src/models.rs:443-454 | The GetPage arm, read field by field, agrees with `PagestreamFe.ParseGetPage` on success, value and new position. |
| Pagestream.ReadDbSize | libs/pageserver_api/src/models.rs:455-459 | The DbSize arm, read field by field, agrees with `PagestreamFe.ParseDbSize` on success, value and new position. |

## Left out

- The std-only operations:
  - `walkeeper/src/wal_service.rs` (sockets, threads) is not part of this model.
  - The HTTP/serde request and response records are left out, as is their (de)serialization.
  - The lifecycle transitions of tenants and timelines are left out; only the `TenantState` query is modelled.
- The mapping of `SlruKind` to a byte: this type lives in a file that is not part of this model. The kind is therefore a type parameter, and its mapping is a parameter pair (`toByte`, `fromByte`). Two laws of it are used, each stated as a precondition where it is needed: `PagestreamLaws.RoundTripInFieldOrder` needs a kind's byte to decode back to that kind (fromByte(toByte(k)) == Some(k)), and `PagestreamLaws.ReencodeInFieldOrder` needs the kind byte of the frame to be the byte the decoded kind is written as (toByte(fromByte(b)) == b).
- `parse` is generic over any `std::io::Read` (`libs/pageserver_api/src/models.rs:412`). `ByteIo.Reader` is an in-memory byte string whose only failure is running out of input. I/O errors of a general reader (a socket reset, an interrupted read) are not modelled, so the "succeeds exactly when" statements of `PagestreamFe.Parse` and `Pagestream.ParseRequest` hold for in-memory readers such as the `bytes.reader()` the test uses.
- `RelTag` lives in `crate::reltag` (imported at `libs/pageserver_api/src/models.rs:11`), which is not part of this model. `PagestreamFe.RelTag` is rebuilt from the widths the code writes and reads (u32 spcnode, dbnode, relnode and u8 forknum, lines 360-363 and 426-429). Its equality is taken to be field-wise, as the test's `==` at line 580 is assumed to be.
- The `anyhow` error texts become a single failure outcome (`None`). This includes the "unknown smgr message tag" message.
- UTF-8: an error message is its bytes. The validity of a Rust `String` is not modelled.
- The `Bytes` / `BytesMut` internals (reference counting, capacity growth) are left out; only the content is modelled.
- ByteIo.Reader.ReadU8: does not state where the cursor is after a failed read, only that it has not moved back; the source stream's position after a failed `read_exact` is not fixed either.
- ByteIo.Reader.ReadU32: does not state where the cursor is after a failed read, only that it has not moved back; the source stream's position after a failed `read_exact` is not fixed either.
- ByteIo.Reader.ReadBE: does not state where the cursor is after a failed read, only that it has not moved back; the source stream's position after a failed `read_exact` is not fixed either.
- ByteIo.Reader.ReadU64: does not state where the cursor is after a failed read, only that it has not moved back; the source stream's position after a failed `read_exact` is not fixed either.
- Pagestream.ParseRequest: does not state where the cursor is after a failed read, only that it has not moved back; the source stream's position after a failed `read_exact` is not fixed either.
- Pagestream.ReadExists: does not state where the cursor is after a failed read, only that it has not moved back; the source stream's position after a failed `read_exact` is not fixed either.
- Pagestream.ReadNblocks: does not state where the cursor is after a failed read, only that it has not moved back; the source stream's position after a failed `read_exact` is not fixed either.
- Pagestream.ReadGetPage: does not state where the cursor is after a failed read, only that it has not moved back; the source stream's position after a failed `read_exact` is not fixed either.
- Pagestream.ReadDbSize: does not state where the cursor is after a failed read, only that it has not moved back; the source stream's position after a failed `read_exact` is not fixed either.
- Pagestream.ReadGetSlruPage: does not state where the cursor is after a failed read, only that it has not moved back; the source stream's position after a failed `read_exact` is not fixed either.
- PagestreamBe.Decode: the source has no response parser. This reference decoder is the partner `PagestreamBe.Encode` is proved against. Its NUL-terminated reading of errors is why an error whose message contains a NUL cannot round-trip.

## Findings

| source | as written | input that shows it | evidently intended | confidence | as-written member | corrected member |
|---|---|---|---|---|---|---|
| libs/pageserver_api/src/models.rs:364 | `serialize` writes `region` after the relation or SLRU fields in the Exists, Nblocks, GetPage and GetSlruPage arms (also at lines 375, 387 and 405). `parse` reads `region` straight after `lsn` (lines 424, 435, 446 and 464). | The test's Exists vector `Exists(latest true, lsn 4, region 0, rel (spc 2, db 3, rel 4, fork 1))` parses back as region 2, rel (3, 4, 0x1000000, 0), so the assertion at line 580 fails. | Either side can be changed to agree; both restore the test's round trip. Moving the `region` read to the end of each `parse` arm keeps the bytes `serialize` writes today. Moving the `region` write up to follow `lsn` keeps what `parse` reads and the order the request structs declare (lines 272-313). The compute node's C client, which fixes the deployed order, is not part of this model. The model corrects the write side: region right after lsn, where serialize-then-parse is then the identity. | high; not executed | PagestreamLaws.TestExistsOutcome | PagestreamLaws.RoundTripInFieldOrder |
