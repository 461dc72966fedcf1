/** The DPS 162 (voice pack install) payload of send_voice_pack.py: the field
    encoders, `build_dps162` and `decode_dps162_response`, on the bytes that
    lie under the base64 layer. */
module Dps162 {
  import opened Varint

  /** Wire type 0: the value is a varint. */
  const WireVarint: nat := 0
  /** Wire type 2: the value is a varint length followed by that many bytes. */
  const WireBytes: nat := 2

  /** A decoded field value: an integer (wire type 0) or a byte string
      (wire type 2). */
  datatype Value = Int(n: nat) | Bytes(b: seq<Byte>)

  /** The dictionary `decode_dps162_response` fills: field number to value. */
  type Fields = map<nat, Value>

  /** `(field_num << 3) | wire_type` for a wire type below 8. */
  function Tag(fieldNum: nat, wireType: nat): (t: nat)
    requires wireType < 8
    ensures t / 8 == fieldNum && t % 8 == wireType
  {
    fieldNum * 8 + wireType
  }

  /** `_encode_field_varint` (send_voice_pack.py:58-59). */
  function FieldVarint(fieldNum: nat, value: nat): seq<Byte>
  {
    Encoding(Tag(fieldNum, WireVarint)) + Encoding(value)
  }

  /** `_encode_field_string` (send_voice_pack.py:62-65), the value already
      given as bytes. */
  function FieldBytes(fieldNum: nat, value: seq<Byte>): seq<Byte>
  {
    Encoding(Tag(fieldNum, WireBytes)) + Encoding(|value|) + value
  }

  /** The worked example of the wire format: field 2 holding "abc". */
  lemma FieldBytesExample()
    ensures FieldBytes(2, [0x61, 0x62, 0x63]) == [0x12, 0x03, 0x61, 0x62, 0x63]
  {
    assert Encoding(18) == [0x12];
    assert Encoding(3) == [0x03];
  }

  /** The arguments of `build_dps162`; url and md5 are their UTF-8 bytes. */
  datatype Request = Request(setId: nat, url: seq<Byte>, md5: seq<Byte>, version: nat, size: nat)

  /** The inner message of `build_dps162` (send_voice_pack.py:82-86). */
  function Inner(req: Request): seq<Byte>
  {
    FieldVarint(1, req.setId)
    + FieldBytes(2, req.url)
    + FieldBytes(3, req.md5)
    + FieldVarint(4, req.version)
    + FieldVarint(5, req.size)
  }

  /** The outer message (send_voice_pack.py:87-88): the inner message as
      field 1, then an empty field 2. */
  function Outer(req: Request): (r: seq<Byte>)
    ensures |r| >= 2 && r[|r| - 2..] == [0x12, 0x00]
  {
    assert Encoding(Tag(2, WireBytes)) == [0x12];
    assert Encoding(0) == [0x00];
    FieldBytes(1, Inner(req)) + FieldBytes(2, [])
  }

  /** The bytes `build_dps162` base64-encodes (send_voice_pack.py:89): the
      outer message prefixed with its length as a varint. */
  function Payload(req: Request): (r: seq<Byte>)
    ensures Decoding(r, 0) == Ok((|Outer(req)|, |r| - |Outer(req)|))
    ensures r[|r| - |Outer(req)|..] == Outer(req)
  {
    ReadVarintRoundTrip(|Outer(req)|, Outer(req));
    Encoding(|Outer(req)|) + Outer(req)
  }

  /** One pass of the loop body of `decode_dps162_response`
      (send_voice_pack.py:115-123) at position pos: the new position and
      dictionary. A length-delimited value is cut at the end of the data, as
      a Python slice is, and the position still advances by the declared
      length. Every pass consumes at least one byte, so the loop ends. */
  function Step(data: seq<Byte>, pos: nat, fields: Fields): (r: Result<(nat, Fields)>)
    ensures r.Ok? ==> r.value.0 > pos
  {
    match Decoding(data, pos)
    case Truncated => Truncated
    case Ok((tag, p)) =>
      var fieldNum, wireType := tag / 8, tag % 8;
      if wireType == WireVarint then
        match Decoding(data, p)
        case Truncated => Truncated
        case Ok((v, p')) => Ok((p', fields[fieldNum := Int(v)]))
      else if wireType == WireBytes then
        match Decoding(data, p)
        case Truncated => Truncated
        case Ok((len, p')) =>
          var stop := if p' + len <= |data| then p' + len else |data|;
          Ok((p' + len, fields[fieldNum := Bytes(data[p'..stop])]))
      else
        Ok((p, fields))
  }

  /** The `while pos2 < len(inner)` loop of `decode_dps162_response`
      (send_voice_pack.py:113-124), from position pos with the dictionary
      built so far. */
  function Scan(data: seq<Byte>, pos: nat, fields: Fields): Result<Fields>
    decreases |data| - pos
  {
    if pos >= |data| then Ok(fields)
    else match Step(data, pos, fields)
      case Truncated => Truncated
      case Ok((p, f)) => Scan(data, p, f)
  }

  /** What `decode_dps162_response` returns for the base64-decoded bytes
      (send_voice_pack.py:110-124): the leading varint is read and dropped,
      and the rest is scanned from an empty dictionary. */
  function Decoded(data: seq<Byte>): Result<Fields>
  {
    match Decoding(data, 0)
    case Truncated => Truncated
    case Ok((_, pos)) => Scan(data[pos..], 0, map[])
  }

  /** One pass over a varint field whose tag and value read at pos and p. */
  lemma StepVarint(data: seq<Byte>, pos: nat, fields: Fields, tag: nat, p: nat, v: nat, p': nat)
    requires Decoding(data, pos) == Ok((tag, p)) && tag % 8 == WireVarint
    requires Decoding(data, p) == Ok((v, p'))
    ensures Step(data, pos, fields) == Ok((p', fields[tag / 8 := Int(v)]))
  {
  }

  /** One pass over a length-delimited field whose tag and length read at
      pos and p. */
  lemma StepBytes(data: seq<Byte>, pos: nat, fields: Fields, tag: nat, p: nat, len: nat, p': nat)
    requires Decoding(data, pos) == Ok((tag, p)) && tag % 8 == WireBytes
    requires Decoding(data, p) == Ok((len, p'))
    ensures var stop := if p' + len <= |data| then p' + len else |data|;
      Step(data, pos, fields) == Ok((p' + len, fields[tag / 8 := Bytes(data[p'..stop])]))
  {
  }

  /** Scanning from pos is one pass of the loop followed by the rest. */
  lemma ScanUnfold(data: seq<Byte>, pos: nat, fields: Fields)
    requires pos < |data|
    ensures Step(data, pos, fields).Truncated? ==> Scan(data, pos, fields) == Truncated
    ensures Step(data, pos, fields).Ok? ==>
      Scan(data, pos, fields) == Scan(data, Step(data, pos, fields).value.0, Step(data, pos, fields).value.1)
  {
  }

  /** `decode_dps162_response` (send_voice_pack.py:107-124) after
      base64-decoding: the loop that advances `pos2` and fills `fields`. */
  method DecodeResponse(data: seq<Byte>) returns (r: Result<Fields>)
    ensures r == Decoded(data)
  {
    var lead := ReadVarint(data, 0);
    if lead.Truncated? {
      return Truncated;
    }
    var inner := data[lead.value.1..];
    var fields: Fields := map[];
    var pos2: nat := 0;
    while pos2 < |inner|
      invariant Scan(inner, pos2, fields) == Decoded(data)
      decreases |inner| - pos2
    {
      ghost var pos0, fields0 := pos2, fields;
      ScanUnfold(inner, pos0, fields0);
      var t := ReadVarint(inner, pos2);
      if t.Truncated? {
        assert Step(inner, pos0, fields0) == Truncated;
        return Truncated;
      }
      var tag := t.value.0;
      pos2 := t.value.1;
      var fieldNum, wireType := tag / 8, tag % 8;
      if wireType == 0 {
        var v := ReadVarint(inner, pos2);
        if v.Truncated? {
          assert Step(inner, pos0, fields0) == Truncated;
          return Truncated;
        }
        pos2 := v.value.1;
        fields := fields[fieldNum := Int(v.value.0)];
      } else if wireType == 2 {
        var l := ReadVarint(inner, pos2);
        if l.Truncated? {
          assert Step(inner, pos0, fields0) == Truncated;
          return Truncated;
        }
        pos2 := l.value.1;
        var stop := if pos2 + l.value.0 <= |inner| then pos2 + l.value.0 else |inner|;
        fields := fields[fieldNum := Bytes(inner[pos2..stop])];
        pos2 := pos2 + l.value.0;
      }
      assert Step(inner, pos0, fields0) == Ok((pos2, fields));
    }
    return Ok(fields);
  }

  /** A read result with its end position moved on by n. */
  function Moved<T>(r: Result<(T, nat)>, n: nat): Result<(T, nat)>
  {
    match r
    case Truncated => Truncated
    case Ok((v, end)) => Ok((v, end + n))
  }

  /** A loop pass result with its new position moved on by n. */
  function MovedStep(r: Result<(nat, Fields)>, n: nat): Result<(nat, Fields)>
  {
    match r
    case Truncated => Truncated
    case Ok((p, f)) => Ok((p + n, f))
  }

  /** A varint read does not depend on the bytes before it. */
  lemma {:induction false} DecodingAfter(pre: seq<Byte>, rest: seq<Byte>, k: nat)
    ensures Decoding(pre + rest, |pre| + k) == Moved(Decoding(rest, k), |pre|)
    decreases |rest| - k
  {
    if k < |rest| {
      assert (pre + rest)[|pre| + k] == rest[k];
      if rest[k] >= 128 {
        DecodingAfter(pre, rest, k + 1);
      }
    }
  }

  /** A length-delimited value read after `pre` is the same slice of `rest`. */
  lemma SliceAfter(pre: seq<Byte>, rest: seq<Byte>, p': nat, n: nat)
    requires p' <= |rest|
    ensures var stop := if p' + n <= |rest| then p' + n else |rest|;
      var data := pre + rest;
      data[|pre| + p'..if |pre| + p' + n <= |data| then |pre| + p' + n else |data|] == rest[p'..stop]
  {
  }

  /** One pass of the loop does not depend on the bytes before it. */
  lemma StepAfter(pre: seq<Byte>, rest: seq<Byte>, k: nat, fields: Fields)
    ensures Step(pre + rest, |pre| + k, fields) == MovedStep(Step(rest, k, fields), |pre|)
  {
    DecodingAfter(pre, rest, k);
    match Decoding(rest, k)
    case Truncated =>
    case Ok((tag, p)) =>
      DecodingAfter(pre, rest, p);
      match Decoding(rest, p)
      case Truncated =>
      case Ok((n, p')) =>
        SliceAfter(pre, rest, p', n);
  }

  /** Nor does the rest of the scan. */
  lemma {:induction false} ScanAfter(pre: seq<Byte>, rest: seq<Byte>, k: nat, fields: Fields)
    ensures Scan(pre + rest, |pre| + k, fields) == Scan(rest, k, fields)
    decreases |rest| - k
  {
    var data := pre + rest;
    if k < |rest| {
      StepAfter(pre, rest, k, fields);
      ScanUnfold(rest, k, fields);
      ScanUnfold(data, |pre| + k, fields);
      match Step(rest, k, fields)
      case Truncated =>
        assert Step(data, |pre| + k, fields) == Truncated;
      case Ok((p, f)) =>
        assert Step(data, |pre| + k, fields) == Ok((|pre| + p, f));
        ScanAfter(pre, rest, p, f);
        assert Scan(data, |pre| + k, fields) == Scan(data, |pre| + p, f);
    } else {
      assert |pre| + k >= |data|;
      assert Scan(data, |pre| + k, fields) == Ok(fields);
    }
  }

  /** A first pass of the loop that consumes exactly `pre` leaves the scan
      of what follows. */
  lemma ScanFront(pre: seq<Byte>, rest: seq<Byte>, fields: Fields, f: Fields)
    requires Step(pre + rest, 0, fields) == Ok((|pre|, f))
    ensures Scan(pre + rest, 0, fields) == Scan(rest, 0, f)
  {
    var data := pre + rest;
    assert 0 < |data| by {
      DecodingTruncatedIff(data, 0);
    }
    ScanUnfold(data, 0, fields);
    ScanAfter(pre, rest, 0, f);
  }

  /** A complete varint field at the front is stored under its field number
      and the scan goes on with what follows it. */
  lemma ScanFieldVarint(fieldNum: nat, value: nat, rest: seq<Byte>, fields: Fields)
    ensures Scan(FieldVarint(fieldNum, value) + rest, 0, fields)
         == Scan(rest, 0, fields[fieldNum := Int(value)])
  {
    var tag := Tag(fieldNum, WireVarint);
    var e1, e2 := Encoding(tag), Encoding(value);
    var pre := e1 + e2;
    assert FieldVarint(fieldNum, value) == pre;
    var data := pre + rest;
    var f := fields[fieldNum := Int(value)];
    var n1: nat, endp: nat := |e1|, |pre|;
    assert Decoding(data, 0) == Ok((tag, n1)) by {
      assert data == e1 + (e2 + rest);
      ReadVarintRoundTrip(tag, e2 + rest);
    }
    assert Decoding(data, n1) == Ok((value, endp)) by {
      assert data == e1 + (e2 + rest);
      ReadVarintRoundTrip(value, rest);
      DecodingAfter(e1, e2 + rest, 0);
    }
    StepVarint(data, 0, fields, tag, n1, value, endp);
    ScanFront(pre, rest, fields, f);
    assert FieldVarint(fieldNum, value) + rest == data;
  }

  /** A complete length-delimited field at the front is stored under its
      field number and the scan goes on with what follows it. */
  lemma ScanFieldBytes(fieldNum: nat, value: seq<Byte>, rest: seq<Byte>, fields: Fields)
    ensures Scan(FieldBytes(fieldNum, value) + rest, 0, fields)
         == Scan(rest, 0, fields[fieldNum := Bytes(value)])
  {
    var tag := Tag(fieldNum, WireBytes);
    var e1, e2 := Encoding(tag), Encoding(|value|);
    var pre := e1 + e2 + value;
    assert FieldBytes(fieldNum, value) == pre;
    var data := pre + rest;
    var f := fields[fieldNum := Bytes(value)];
    var n1: nat, p: nat, len: nat := |e1|, |e1| + |e2|, |value|;
    var endp: nat := |pre|;
    assert Decoding(data, 0) == Ok((tag, n1)) by {
      assert data == e1 + (e2 + (value + rest));
      ReadVarintRoundTrip(tag, e2 + (value + rest));
    }
    assert Decoding(data, n1) == Ok((len, p)) by {
      assert data == e1 + (e2 + (value + rest));
      ReadVarintRoundTrip(|value|, value + rest);
      DecodingAfter(e1, e2 + (value + rest), 0);
    }
    assert Step(data, 0, fields) == Ok((endp, f)) by {
      StepBytes(data, 0, fields, tag, n1, len, p);
      assert data[p..p + len] == value;
    }
    ScanFront(pre, rest, fields, f);
    assert FieldBytes(fieldNum, value) + rest == data;
  }

  /** Scanning the inner message of `build_dps162` gives back the five
      arguments under field numbers 1 to 5. */
  lemma InnerRoundTrip(req: Request)
    ensures Scan(Inner(req), 0, map[])
         == Ok(map[1 := Int(req.setId), 2 := Bytes(req.url), 3 := Bytes(req.md5),
                   4 := Int(req.version), 5 := Int(req.size)])
  {
    var f1, f2, f3 := FieldVarint(1, req.setId), FieldBytes(2, req.url), FieldBytes(3, req.md5);
    var f4, f5 := FieldVarint(4, req.version), FieldVarint(5, req.size);
    assert Inner(req) == f1 + (f2 + (f3 + (f4 + (f5 + []))));
    var m1 := map[1 := Int(req.setId)];
    var m2 := m1[2 := Bytes(req.url)];
    var m3 := m2[3 := Bytes(req.md5)];
    var m4 := m3[4 := Int(req.version)];
    ScanFieldVarint(1, req.setId, f2 + (f3 + (f4 + (f5 + []))), map[]);
    ScanFieldBytes(2, req.url, f3 + (f4 + (f5 + [])), m1);
    ScanFieldBytes(3, req.md5, f4 + (f5 + []), m2);
    ScanFieldVarint(4, req.version, f5 + [], m3);
    ScanFieldVarint(5, req.size, [], m4);
  }

  /** Decoding what `build_dps162` encodes, with the loop of
      `decode_dps162_response`, gives the outer message's two fields: the
      inner message as field 1 and the empty field 2. */
  lemma PayloadRoundTrip(req: Request)
    ensures Decoded(Payload(req)) == Ok(map[1 := Bytes(Inner(req)), 2 := Bytes([])])
  {
    var g1, g2 := FieldBytes(1, Inner(req)), FieldBytes(2, []);
    assert Outer(req) == g1 + (g2 + []);
    ScanFieldBytes(1, Inner(req), g2 + [], map[]);
    ScanFieldBytes(2, [], [], map[1 := Bytes(Inner(req))]);
  }

  /** The inner message determines the arguments it was built from. */
  lemma InnerInjective(req1: Request, req2: Request)
    requires Inner(req1) == Inner(req2)
    ensures req1 == req2
  {
    InnerRoundTrip(req1);
    InnerRoundTrip(req2);
    var m1 := map[1 := Int(req1.setId), 2 := Bytes(req1.url), 3 := Bytes(req1.md5),
                  4 := Int(req1.version), 5 := Int(req1.size)];
    var m2 := map[1 := Int(req2.setId), 2 := Bytes(req2.url), 3 := Bytes(req2.md5),
                  4 := Int(req2.version), 5 := Int(req2.size)];
    assert m1 == m2;
    assert m1[1] == m2[1] && m1[2] == m2[2] && m1[3] == m2[3] && m1[4] == m2[4] && m1[5] == m2[5];
  }

  /** Different arguments never give the same command: the payload
      determines the request it was built from. */
  lemma PayloadInjective(req1: Request, req2: Request)
    requires Payload(req1) == Payload(req2)
    ensures req1 == req2
  {
    PayloadRoundTrip(req1);
    PayloadRoundTrip(req2);
    var m1 := map[1 := Bytes(Inner(req1)), 2 := Bytes([])];
    var m2 := map[1 := Bytes(Inner(req2)), 2 := Bytes([])];
    assert m1 == m2;
    assert m1[1] == m2[1];
    InnerInjective(req1, req2);
  }

  /** The leading length is read and thrown away: whatever value it declares,
      decoding scans exactly the bytes after it. */
  lemma LengthPrefixIgnored(declared: nat, body: seq<Byte>)
    ensures Decoded(Encoding(declared) + body) == Scan(body, 0, map[])
  {
    ReadVarintRoundTrip(declared, body);
    assert (Encoding(declared) + body)[|Encoding(declared)|..] == body;
  }

  /** A field of either kind, as `build_dps162` would encode it. */
  function FieldOf(fieldNum: nat, v: Value): seq<Byte>
  {
    match v
    case Int(n) => FieldVarint(fieldNum, n)
    case Bytes(b) => FieldBytes(fieldNum, b)
  }

  /** A complete field of either kind at the front is stored under its field
      number and the scan goes on with what follows it. */
  lemma ScanField(fieldNum: nat, v: Value, rest: seq<Byte>, fields: Fields)
    ensures Scan(FieldOf(fieldNum, v) + rest, 0, fields) == Scan(rest, 0, fields[fieldNum := v])
  {
    match v
    case Int(n) => ScanFieldVarint(fieldNum, n, rest, fields);
    case Bytes(b) => ScanFieldBytes(fieldNum, b, rest, fields);
  }

  /** When a field number repeats, the dictionary keeps the later value,
      whatever the kinds of the two values and whatever follows them. */
  lemma LastValueWins(fields: Fields, fieldNum: nat, first: Value, second: Value, rest: seq<Byte>)
    ensures Scan(FieldOf(fieldNum, first) + FieldOf(fieldNum, second) + rest, 0, fields)
         == Scan(rest, 0, fields[fieldNum := second])
  {
    var a, b := FieldOf(fieldNum, first), FieldOf(fieldNum, second);
    assert a + b + rest == a + (b + rest);
    ScanField(fieldNum, first, b + rest, fields);
    ScanField(fieldNum, second, rest, fields[fieldNum := first]);
    assert fields[fieldNum := first][fieldNum := second] == fields[fieldNum := second];
  }

  /** A tag whose wire type is neither 0 nor 2 stores nothing and consumes
      only the tag itself. */
  lemma OtherWireTypeSkipsTag(data: seq<Byte>, pos: nat, fields: Fields)
    requires Decoding(data, pos).Ok?
    requires Decoding(data, pos).value.0 % 8 != WireVarint
    requires Decoding(data, pos).value.0 % 8 != WireBytes
    ensures Scan(data, pos, fields) == Scan(data, Decoding(data, pos).value.1, fields)
  {
  }

  /** Example: after a length byte, tag 0x0D (field 1, wire type 5) is
      skipped on its own, so the following bytes 0x08 0x07 are read as the
      varint field 1 = 7. */
  lemma OtherWireTypeExample()
    ensures Decoded([0x03, 0x0D, 0x08, 0x07]) == Ok(map[1 := Int(7)])
  {
    var body: seq<Byte> := [0x0D, 0x08, 0x07];
    assert [0x03, 0x0D, 0x08, 0x07][1..] == body;
    assert Step(body, 0, map[]) == Ok((1, map[]));
    assert Step(body, 1, map[]) == Ok((3, map[1 := Int(7)]));
  }

  /** A length-delimited value that declares more bytes than remain is cut at
      the end of the data, and the scan ends normally with it. */
  lemma OverlongBytesTruncated(data: seq<Byte>, pos: nat, fields: Fields, tag: nat, p: nat, len: nat, p': nat)
    requires Decoding(data, pos) == Ok((tag, p)) && tag % 8 == WireBytes
    requires Decoding(data, p) == Ok((len, p'))
    requires p' + len > |data|
    ensures Scan(data, pos, fields) == Ok(fields[tag / 8 := Bytes(data[p'..])])
  {
    assert p' <= |data|;
    assert data[p'..|data|] == data[p'..];
    assert Step(data, pos, fields) == Ok((p' + len, fields[tag / 8 := Bytes(data[p'..])]));
  }

  /** A tag whose varint runs off the end of the data makes the decoder fail
      instead of returning what it has. */
  lemma UnterminatedTagFails(data: seq<Byte>, pos: nat, fields: Fields)
    requires pos < |data|
    requires forall i | pos <= i < |data| :: data[i] >= 128
    ensures Scan(data, pos, fields) == Truncated
  {
    DecodingTruncatedIff(data, pos);
  }

  /** Likewise for a varint value or a length that runs off the end. */
  lemma UnterminatedValueFails(data: seq<Byte>, pos: nat, fields: Fields)
    requires Decoding(data, pos).Ok?
    requires Decoding(data, pos).value.0 % 8 == WireVarint || Decoding(data, pos).value.0 % 8 == WireBytes
    requires forall i | Decoding(data, pos).value.1 <= i < |data| :: data[i] >= 128
    ensures Scan(data, pos, fields) == Truncated
  {
    DecodingTruncatedIff(data, Decoding(data, pos).value.1);
  }

  /** A read at q that runs off the end of the data: the tag varint itself,
      or the value or length varint after a tag of wire type 0 or 2. */
  predicate ReadRunsOff(data: seq<Byte>, q: nat)
  {
    match Decoding(data, q)
    case Truncated => true
    case Ok((tag, p)) =>
      (tag % 8 == WireVarint || tag % 8 == WireBytes) && Decoding(data, p).Truncated?
  }

  /** The loop, started at pos with `fields`, comes round to position q with
      the dictionary g. */
  predicate Reaches(data: seq<Byte>, pos: nat, fields: Fields, q: nat, g: Fields)
    decreases |data| - pos
  {
    if pos == q && fields == g then true
    else if pos >= |data| then false
    else match Step(data, pos, fields)
      case Truncated => false
      case Ok((p, f)) => Reaches(data, p, f, q, g)
  }

  /** Where the loop comes round to, the rest of the scan is the same. */
  lemma {:induction false} ReachesSameScan(data: seq<Byte>, pos: nat, fields: Fields, q: nat, g: Fields)
    requires Reaches(data, pos, fields, q, g)
    ensures Scan(data, pos, fields) == Scan(data, q, g)
    decreases |data| - pos
  {
    if !(pos == q && fields == g) {
      ScanUnfold(data, pos, fields);
      var (p, f) := Step(data, pos, fields).value;
      ReachesSameScan(data, p, f, q, g);
    }
  }

  /** One pass fails exactly when its tag, or the value or length after a
      tag of wire type 0 or 2, runs off the end. */
  lemma StepFailsIff(data: seq<Byte>, q: nat, g: Fields)
    ensures Step(data, q, g).Truncated? <==> ReadRunsOff(data, q)
  {
  }

  /** A failing scan got to a position inside the data where a read runs
      off the end. */
  lemma {:induction false} ScanFailsOnlyWhenReadRunsOff(data: seq<Byte>, pos: nat, fields: Fields)
    requires Scan(data, pos, fields).Truncated?
    ensures exists q: nat, g: Fields :: Reaches(data, pos, fields, q, g) && q < |data| && ReadRunsOff(data, q)
    decreases |data| - pos
  {
    assert pos < |data|;
    ScanUnfold(data, pos, fields);
    StepFailsIff(data, pos, fields);
    match Step(data, pos, fields)
    case Truncated =>
      assert Reaches(data, pos, fields, pos, fields);
    case Ok((p, f)) =>
      ScanFailsOnlyWhenReadRunsOff(data, p, f);
      var q: nat, g: Fields :| Reaches(data, p, f, q, g) && q < |data| && ReadRunsOff(data, q);
      assert Reaches(data, pos, fields, q, g);
  }

  /** A read that runs off the end, at a position the loop gets to, makes
      the whole scan fail. */
  lemma ReadRunsOffFails(data: seq<Byte>, pos: nat, fields: Fields, q: nat, g: Fields)
    requires Reaches(data, pos, fields, q, g) && q < |data| && ReadRunsOff(data, q)
    ensures Scan(data, pos, fields) == Truncated
  {
    ReachesSameScan(data, pos, fields, q, g);
    StepFailsIff(data, q, g);
    ScanUnfold(data, q, g);
  }

  /** The scan fails exactly when, at a position the loop gets to inside the
      data, a tag, value or length varint runs off the end. An over-long
      length-delimited value never makes it fail. */
  lemma ScanFailsIff(data: seq<Byte>, pos: nat, fields: Fields)
    ensures Scan(data, pos, fields).Truncated?
        <==> exists q: nat, g: Fields :: Reaches(data, pos, fields, q, g) && q < |data| && ReadRunsOff(data, q)
  {
    if Scan(data, pos, fields).Truncated? {
      ScanFailsOnlyWhenReadRunsOff(data, pos, fields);
    }
    if exists q: nat, g: Fields :: Reaches(data, pos, fields, q, g) && q < |data| && ReadRunsOff(data, q) {
      var q: nat, g: Fields :| Reaches(data, pos, fields, q, g) && q < |data| && ReadRunsOff(data, q);
      ReadRunsOffFails(data, pos, fields, q, g);
    }
  }

  /** An empty reply has no leading length to read. */
  lemma EmptyReplyFails()
    ensures Decoded([]) == Truncated
  {
  }

  /** The scan only adds entries: every field present before is still present
      afterwards. */
  lemma {:induction false} ScanKeepsKeys(data: seq<Byte>, pos: nat, fields: Fields)
    requires Scan(data, pos, fields).Ok?
    ensures fields.Keys <= Scan(data, pos, fields).value.Keys
    decreases |data| - pos
  {
    if pos < |data| {
      var (p, f) := Step(data, pos, fields).value;
      ScanKeepsKeys(data, p, f);
    }
  }
}
