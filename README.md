# Eufy L50 voice pack command (DPS 162): a verified model

`send_voice_pack.py` pushes a custom voice pack to an Eufy L50 robot vacuum
by writing data point 162 over the Tuya local protocol. The value it writes
is a small hand-written Protocol Buffers message: base-128 varints, tags made
of a field number times 8 plus a wire type, wire type 0 (varint) and wire
type 2 (length-delimited). An inner message carries the pack id, the download
URL, the MD5 of the ZIP as hex text, the version and the size. It is nested as
field 1 of an outer message whose field 2 is empty, prefixed with its length,
and base64-encoded. The vacuum answers on the same data point with a flat
message that the script scans into a field-number dictionary and classifies
by its `state` field.

This project models that codec and the decisions around it, on the bytes
under the base64 layer:

- `varint.dfy`, module `Varint`: `_encode_varint` and `_read_varint`, each as a
  method with its loop, proved against the functions `Encoding` and
  `Decoding`. The round trip, the shape of every encoding, and exactly when a
  read fails are proved about those functions.
- `dps162.dfy`, module `Dps162`: the field encoders, the command built by
  `build_dps162`, and `decode_dps162_response` as a method whose loop fills
  the dictionary. The method is proved against `Decoded`, which is built from
  `Step` (one pass of the loop) and `Scan` (the whole loop). The lemmas show
  that decoding the command gives back the outer message's two fields, and
  that scanning the inner message gives back the five arguments. They also
  cover the decoder's tolerances: the leading length is discarded, the last
  value wins, unknown wire types are skipped, and an over-long value is
  truncated. Finally, they show that, after the leading length, the scan of
  the fields fails exactly when a tag, value or length varint runs off the
  end of the data at a position the loop gets to.
- `handshake.dfy`, module `SendVoicePack`: the two decisions taken in `main`.
  One is the warning that the version is not above the known version of an
  official pack. The other is how the reply to `set_value` is classified:
  no response, a decode failure, or a decoded reply whose `state` is 2
  (installed), 3 (pack id rejected) or anything else.

Bytes are `Byte` (an `int` from 0 to 255) and integers are `nat`, as Python's
integers are unbounded. Python's `IndexError` from `data[pos]` running off the
buffer is the `Truncated` case of `Result`. Some bit operations are written
arithmetically: `v & 0x7F` is `v % 128`, `v >>= 7` is `v / 128`, `b | 0x80`
with `b < 128` is `b + 128`, and `tag >> 3`, `tag & 7` are `tag / 8`,
`tag % 8`. These agree on non-negative integers. The `|=` of `_read_varint`
is modelled literally, by `BitOr`, and `BitOrDisjoint` proves that it adds
the new group because the group lies above every bit already set.

A length-delimited value whose declared length runs past the end of the
data does not make the decoder fail: the slice `inner[pos2:pos2+l]` stops at
the end of the data, `pos2` moves past it, the loop ends and nothing is
raised (`OverlongBytesTruncated`).

## Model

| member | source | states |
|---|---|---|
| `Varint.EncodeVarint` | send_voice_pack.py:47-55 | the loop that appends seven-bit groups returns exactly `Encoding(v)` |
| `Varint.EncodingShape` | send_voice_pack.py:47-55 | every encoding is non-empty, has bit 0x80 on every byte but the last and not on the last, and has no trailing zero group; it is one byte exactly when v < 128 |
| `Varint.EncodingExamples` | send_voice_pack.py:47-55 | 0, 127, 128 and 300 encode as `00`, `7F`, `80 01` and `AC 02` |
| `Varint.Decoding` | send_voice_pack.py:96-104 | a successful read ends after at least one byte and inside the buffer |
| `Varint.BitOrDisjoint` | send_voice_pack.py:100 | OR-ing a group shifted above every bit already set equals adding it |
| `Varint.AccumulateGroup` | send_voice_pack.py:99-103 | one pass of the loop keeps the accumulator below 2^(shift+7), and either finishes the read or continues it seven bits higher |
| `Varint.ReadVarint` | send_voice_pack.py:96-104 | the loop that ORs groups into `result` returns exactly `Decoding(data, pos)`, including the IndexError case |
| `Varint.DecodingTruncatedIff` | send_voice_pack.py:99 | a read fails if and only if no byte from pos on has bit 0x80 clear, which covers pos at the end and data ending after a continuation byte |
| `Varint.DecodingStopsAtTerminator` | send_voice_pack.py:101-102 | a successful read stops right after the first byte whose bit 0x80 is clear |
| `Varint.DecodingEncoding` | send_voice_pack.py:96-104 | reading the encoding of v at any position gives v and the position just after the encoding, whatever bytes surround it |
| `Varint.ReadVarintRoundTrip` | send_voice_pack.py:96-104 | `_read_varint(_encode_varint(v) + rest, 0)` is `(v, len(_encode_varint(v)))` |
| `Dps162.Tag` | send_voice_pack.py:59 | the decoder's `tag >> 3` and `tag & 7` recover the field number and the wire type |
| `Dps162.FieldVarint` | send_voice_pack.py:58-59 | `_encode_field_varint`: the tag then the value as varints; its promise is carried by `ScanFieldVarint` |
| `Dps162.FieldBytes` | send_voice_pack.py:62-65 | `_encode_field_string`: the tag, the length, then the bytes; its promise is carried by `ScanFieldBytes` and `FieldBytesExample` |
| `Dps162.FieldBytesExample` | send_voice_pack.py:62-65 | field 2 holding "abc" is `12 03 61 62 63` |
| `Dps162.Inner` | send_voice_pack.py:82-86 | the inner message of five fields; its promise is carried by `InnerRoundTrip` and `InnerInjective` |
| `Dps162.Outer` | send_voice_pack.py:87-88 | the outer message ends with the empty field 2, `12 00` |
| `Dps162.Payload` | send_voice_pack.py:89 | the command's bytes begin with a varint equal to the outer message's length, followed by the outer message |
| `Dps162.InnerRoundTrip` | send_voice_pack.py:82-86 | scanning the inner message gives `{1: set_id, 2: url, 3: md5, 4: version, 5: size}` |
| `Dps162.PayloadRoundTrip` | send_voice_pack.py:82-89 | decoding the command with the response decoder gives `{1: inner, 2: b''}` |
| `Dps162.PayloadInjective` | send_voice_pack.py:68-89 | two commands are equal only if they were built from the same arguments |
| `Dps162.Step` | send_voice_pack.py:115-123 | each pass of the decoding loop that succeeds consumes at least one byte, so the loop terminates |
| `Dps162.Scan` | send_voice_pack.py:113-124 | the whole decoding loop; its promises are carried by `ScanFieldVarint`, `ScanFieldBytes`, `ScanAfter`, `ScanKeepsKeys` and `ScanFailsOnlyWhenReadRunsOff` |
| `Dps162.Decoded` | send_voice_pack.py:107-124 | `decode_dps162_response`; its promises are carried by `DecodeResponse`, `LengthPrefixIgnored`, `PayloadRoundTrip` and `EmptyReplyFails` |
| `Dps162.DecodeResponse` | send_voice_pack.py:107-124 | the loop that advances `pos2` and fills `fields` returns exactly `Decoded(data)` |
| `Dps162.ScanFieldVarint` | send_voice_pack.py:115-119 | a varint field at the front is stored under its field number and scanning continues after it |
| `Dps162.ScanFieldBytes` | send_voice_pack.py:120-123 | a length-delimited field at the front is stored, as its bytes, under its field number and scanning continues after it |
| `Dps162.ScanField` | send_voice_pack.py:115-123 | a field of either kind at the front is stored under its field number and scanning continues after it |
| `Dps162.StepAfter` | send_voice_pack.py:115-123 | one pass of the loop reads the same field, and moves by the same amount, whatever bytes precede its position |
| `Dps162.ScanAfter` | send_voice_pack.py:113-124 | the rest of the loop gives the same dictionary whatever bytes precede its starting position |
| `Dps162.LengthPrefixIgnored` | send_voice_pack.py:110-111 | whatever length the leading varint declares, the decoder scans exactly the bytes after it |
| `Dps162.LastValueWins` | send_voice_pack.py:116-123 | when a field number repeats, with either kind of value each time and any bytes after, the dictionary keeps the later value |
| `Dps162.OtherWireTypeSkipsTag` | send_voice_pack.py:116-123 | a tag whose wire type is neither 0 nor 2 stores nothing and consumes only the tag |
| `Dps162.OtherWireTypeExample` | send_voice_pack.py:116-123 | after tag `0D` (field 1, wire type 5) is skipped, the bytes `08 07` read as field 1 = 7 |
| `Dps162.OverlongBytesTruncated` | send_voice_pack.py:121-123 | a value whose declared length exceeds the remaining bytes is cut at the end of the data and the decoder returns normally |
| `Dps162.UnterminatedTagFails` | send_voice_pack.py:115 | a tag varint that runs off the end makes decoding fail rather than return a partial dictionary |
| `Dps162.UnterminatedValueFails` | send_voice_pack.py:118-121 | a value or length varint that runs off the end makes decoding fail |
| `Dps162.StepFailsIff` | send_voice_pack.py:115-121 | one pass raises exactly when its tag varint, or the value or length varint after a tag of wire type 0 or 2, runs off the end |
| `Dps162.ScanFailsOnlyWhenReadRunsOff` | send_voice_pack.py:112-124 | conversely to the two lemmas above, a failing scan got, by passes of the loop, to a position inside the data where a tag, value or length varint runs off the end |
| `Dps162.ReadRunsOffFails` | send_voice_pack.py:112-124 | a tag, value or length varint that runs off the end at a position the loop gets to makes the whole scan fail |
| `Dps162.ScanFailsIff` | send_voice_pack.py:112-124 | the scan fails if and only if a varint read runs off the end at a position the loop gets to; an over-long value alone never makes it fail |
| `Dps162.ReachesSameScan` | send_voice_pack.py:113-124 | where the loop gets to, the rest of the loop gives the same result |
| `Dps162.EmptyReplyFails` | send_voice_pack.py:110 | an empty reply fails when its leading length is read |
| `Dps162.ScanKeepsKeys` | send_voice_pack.py:112-124 | every key present before a scan is present after it |
| `SendVoicePack.VersionWarning` | send_voice_pack.py:149 | the advisory warning; its promises are carried by `VersionWarningByPack`, `VersionWarningThreshold` and `VersionWarningExamples` |
| `SendVoicePack.VersionWarningByPack` | send_voice_pack.py:149 | the warning fires if and only if the pack is 501 with version at most 13 or 502 with version at most 15 |
| `SendVoicePack.VersionWarningThreshold` | send_voice_pack.py:149 | a lower version warns whenever a higher one does, and the known version plus one does not warn |
| `SendVoicePack.VersionWarningExamples` | send_voice_pack.py:149 | pack 502 with version 15 warns and with 16 does not; an unknown pack never warns |
| `SendVoicePack.Classify` | send_voice_pack.py:184-189 | the branch on `state`; its promise is carried by `ClassifyCases` |
| `SendVoicePack.Handshake` | send_voice_pack.py:171-192 | the reply handling after `set_value`, with the `'162' in result['dps']` guard of line 171 and `fields.get(n)`; its promises are carried by `HandshakeCases`, `MissingOrEmptyReply`, `DeviceReplyClassified` and `RepeatedStateExample` |
| `SendVoicePack.ClassifyCases` | send_voice_pack.py:184-189 | state 2 is success, 3 is rejection, and any other value, absent or a byte string, is neither |
| `SendVoicePack.HandshakeCases` | send_voice_pack.py:171-192 | the outcome is "no response" exactly when there is no DPS 162 entry; it is success or rejection exactly when the entry decodes and its field 5 is 2 or 3 |
| `SendVoicePack.DeviceReplyClassified` | send_voice_pack.py:171-189 | a reply of a length and varint fields 2 to 5 is reported field by field and classified by field 5, whatever the declared length |
| `SendVoicePack.SuccessReplyExample` | send_voice_pack.py:172-185 | a reply of field 5 = 2 and field 2 = 502, led by their length 5, decodes to `{5: 2, 2: 502}` and is a success |
| `SendVoicePack.RepeatedStateExample` | send_voice_pack.py:116-123 | the reply `05 28 02 2A 01 02` (length 5, state 2, then state as the byte string `02`) decodes to `{5: b'\x02'}` and is not a success |
| `SendVoicePack.MissingOrEmptyReply` | send_voice_pack.py:171-192 | no result, or no `'162'` entry, is "no response", and an empty entry fails to decode |

## Left out

- Base64 (section 4 of RFC 4648) at send_voice_pack.py:89 and 109 is a library call. The model works on the bytes under it, so its decoding errors are not modelled.
- The UTF-8 conversion of `str` values at send_voice_pack.py:63-64 is a library call. The url and md5 are taken as their bytes.
- Negative integers: `_encode_varint` never terminates on them. All encoded values are `nat`, so a negative `--set-id`, `--version` or `--size`, which would hang `build_dps162`, is not modelled.
- The Tuya transport (`tinytuya.Device`, `set_socketPersistent`, `set_value`) at send_voice_pack.py:164-168 is a foreign network call. Its result is a parameter of `Handshake`. Only the `'dps'` entry of that result is modelled, as a map from names to payload bytes.
- The status read at send_voice_pack.py:194-200, with `time.sleep` and `d.status()`, only prints a value and changes no decision.
- Argument parsing and all printing in `main` (send_voice_pack.py:131-162, 178-192) are left out. Only the decisions they report are modelled.
- build_voice_pack.py is not part of this model: text-to-speech, ffmpeg, WAV and ZIP writing and MD5 hashing of files are I/O around the command.
- tools/capture_vacuum_traffic.py is not part of this model: it is ARP spoofing, packet capture and threads, with no protocol logic.
