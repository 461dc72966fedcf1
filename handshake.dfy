/** The decisions `main` of send_voice_pack.py takes around the network
    calls: the advisory version warning before sending, and the
    classification of the device's DPS 162 reply. */
module SendVoicePack {
  import opened Varint
  import opened Dps162

  datatype Option<T> = None | Some(value: T)

  /** `KNOWN_VERSIONS` (send_voice_pack.py:37-40): the installed version of
      each official voice pack, by pack id. */
  const KnownVersions: map<int, int> := map[501 := 13, 502 := 15]

  /** The warning of send_voice_pack.py:149: the pack id is a known one and
      the requested version does not exceed its known version. Command-line
      integers may be negative, so both are `int` here. */
  predicate VersionWarning(setId: int, version: int)
  {
    setId in KnownVersions && version <= KnownVersions[setId]
  }

  /** The warning, spelt out pack by pack: it concerns only packs 501 and
      502, and fires up to and including their known versions. */
  lemma VersionWarningByPack(setId: int, version: int)
    ensures VersionWarning(setId, version)
        <==> (setId == 501 && version <= 13) || (setId == 502 && version <= 15)
  {
  }

  /** A lower version warns whenever a higher one does; the known version
      plus one is the first that does not. */
  lemma VersionWarningThreshold(setId: int, version: int, lower: int)
    requires VersionWarning(setId, version) && lower <= version
    ensures VersionWarning(setId, lower)
    ensures !VersionWarning(setId, KnownVersions[setId] + 1)
  {
  }

  lemma VersionWarningExamples()
    ensures VersionWarning(502, 15) && !VersionWarning(502, 16)
    ensures VersionWarning(501, 13) && !VersionWarning(501, 14)
    ensures !VersionWarning(503, 0)
  {
  }

  /** What `set_value` returned: nothing, or a dictionary whose `'dps'`
      entry, when present, maps data point names to their (base64-decoded)
      payloads. Other entries of the dictionary are not looked at. */
  type SetValueResult = Option<map<string, map<string, seq<Byte>>>>

  /** The guard of send_voice_pack.py:171: the DPS 162 payload, if the
      result holds one. */
  function Dps162Reply(result: SetValueResult): Option<seq<Byte>>
  {
    if result.Some? && "dps" in result.value && "162" in result.value["dps"] then
      Some(result.value["dps"]["162"])
    else
      None
  }

  /** `fields.get(n)`. */
  function Get(fields: Fields, n: nat): Option<Value>
  {
    if n in fields then Some(fields[n]) else None
  }

  /** The four fields main reads from the reply (send_voice_pack.py:173-176). */
  datatype Report = Report(
    installedId: Option<Value>,
    installedVersion: Option<Value>,
    targetId: Option<Value>,
    state: Option<Value>)

  function ReportOf(fields: Fields): Report
  {
    Report(Get(fields, 2), Get(fields, 3), Get(fields, 4), Get(fields, 5))
  }

  /** The branch main takes on `state` (send_voice_pack.py:184-189). */
  datatype Verdict = Installed | RejectedPackId | Undetermined

  function Classify(state: Option<Value>): Verdict
  {
    if state == Some(Int(2)) then Installed
    else if state == Some(Int(3)) then RejectedPackId
    else Undetermined
  }

  /** The three verdicts: 2 is success, 3 is rejection, anything else,
      including a missing state or a byte-string state, is neither. */
  lemma ClassifyCases(state: Option<Value>)
    ensures Classify(state) == Installed <==> state == Some(Int(2))
    ensures Classify(state) == RejectedPackId <==> state == Some(Int(3))
    ensures Classify(state) == Undetermined <==> state != Some(Int(2)) && state != Some(Int(3))
  {
  }

  /** How the exchange ends: no DPS 162 reply, a reply the decoder cannot read
      (the exception propagates out of main), or a decoded reply. */
  datatype Outcome = NoResponse | DecodeFailed | Replied(report: Report, verdict: Verdict)

  /** send_voice_pack.py:171-192, after `set_value` has returned. */
  function Handshake(result: SetValueResult): Outcome
  {
    match Dps162Reply(result)
    case None => NoResponse
    case Some(payload) =>
      match Decoded(payload)
      case Truncated => DecodeFailed
      case Ok(fields) => Replied(ReportOf(fields), Classify(Get(fields, 5)))
  }

  /** The outcome is "no response" exactly when the result has no DPS 162
      entry, and success exactly when that entry decodes to a dictionary whose
      field 5 is the integer 2. */
  lemma HandshakeCases(result: SetValueResult)
    ensures Handshake(result) == NoResponse <==> Dps162Reply(result).None?
    ensures Handshake(result).Replied? && Handshake(result).verdict == Installed
        <==> Dps162Reply(result).Some? && Decoded(Dps162Reply(result).value).Ok?
             && Get(Decoded(Dps162Reply(result).value).value, 5) == Some(Int(2))
    ensures Handshake(result).Replied? && Handshake(result).verdict == RejectedPackId
        <==> Dps162Reply(result).Some? && Decoded(Dps162Reply(result).value).Ok?
             && Get(Decoded(Dps162Reply(result).value).value, 5) == Some(Int(3))
  {
  }

  /** The device's reply as it is laid out: a length, then the flat varint
      fields 2 (installed id), 3 (installed version), 4 (target id) and 5
      (state). */
  function DeviceReply(declared: nat, installedId: nat, installedVersion: nat, targetId: nat, state: nat): seq<Byte>
  {
    Encoding(declared)
    + FieldVarint(2, installedId) + FieldVarint(3, installedVersion)
    + FieldVarint(4, targetId) + FieldVarint(5, state)
  }

  /** Such a reply is reported field by field and classified by its state,
      whatever its declared length. */
  lemma DeviceReplyClassified(declared: nat, installedId: nat, installedVersion: nat, targetId: nat, state: nat)
    ensures Handshake(Some(map["dps" := map["162" := DeviceReply(declared, installedId, installedVersion, targetId, state)]]))
         == Replied(Report(Some(Int(installedId)), Some(Int(installedVersion)), Some(Int(targetId)), Some(Int(state))),
                    if state == 2 then Installed else if state == 3 then RejectedPackId else Undetermined)
  {
    var reply := DeviceReply(declared, installedId, installedVersion, targetId, state);
    var m2 := map[2 := Int(installedId)];
    var m3 := m2[3 := Int(installedVersion)];
    var m4 := m3[4 := Int(targetId)];
    var m5 := m4[5 := Int(state)];
    assert Decoded(reply) == Ok(m5) by {
      var f2, f3 := FieldVarint(2, installedId), FieldVarint(3, installedVersion);
      var f4, f5 := FieldVarint(4, targetId), FieldVarint(5, state);
      var body := f2 + (f3 + (f4 + (f5 + [])));
      assert reply == Encoding(declared) + body;
      LengthPrefixIgnored(declared, body);
      ScanFieldVarint(2, installedId, f3 + (f4 + (f5 + [])), map[]);
      ScanFieldVarint(3, installedVersion, f4 + (f5 + []), m2);
      ScanFieldVarint(4, targetId, f5 + [], m3);
      ScanFieldVarint(5, state, [], m4);
    }
    assert Dps162Reply(Some(map["dps" := map["162" := reply]])) == Some(reply);
  }

  /** The reply with state 2 and installed id 502, whose leading length 5
      is that of its two fields, decodes to exactly those two fields, and is
      a success. */
  lemma SuccessReplyExample()
    ensures |FieldVarint(5, 2) + FieldVarint(2, 502)| == 5
    ensures Decoded(Encoding(5) + FieldVarint(5, 2) + FieldVarint(2, 502))
         == Ok(map[5 := Int(2), 2 := Int(502)])
    ensures Handshake(Some(map["dps" := map["162" := Encoding(5) + FieldVarint(5, 2) + FieldVarint(2, 502)]])).verdict
         == Installed
  {
    assert FieldVarint(5, 2) == [0x28, 0x02] by {
      assert Encoding(40) == [0x28] && Encoding(2) == [0x02];
    }
    assert FieldVarint(2, 502) == [0x10, 0xF6, 0x03] by {
      assert Encoding(16) == [0x10] && Encoding(502) == [0xF6, 0x03];
    }
    var body := FieldVarint(5, 2) + (FieldVarint(2, 502) + []);
    assert Encoding(5) + FieldVarint(5, 2) + FieldVarint(2, 502) == Encoding(5) + body;
    LengthPrefixIgnored(5, body);
    ScanFieldVarint(5, 2, FieldVarint(2, 502) + [], map[]);
    ScanFieldVarint(2, 502, [], map[5 := Int(2)]);
  }

  /** A reply of five bytes carrying the state twice, first as the integer 2
      (`28 02`) and then as the byte string `02` (`2A 01 02`). */
  const RepeatedStateReply: seq<Byte> := [0x05, 0x28, 0x02, 0x2A, 0x01, 0x02]

  /** A state sent twice, first as the integer 2 and then as a byte string,
      is the byte string: the reply `05 28 02 2A 01 02` is not a success. */
  lemma RepeatedStateExample()
    ensures Decoded(RepeatedStateReply) == Ok(map[5 := Bytes([0x02])])
    ensures Handshake(Some(map["dps" := map["162" := RepeatedStateReply]])).verdict == Undetermined
  {
    var reply := RepeatedStateReply;
    var m := map[5 := Bytes([0x02])];
    assert Decoded(reply) == Ok(m) by {
      var body := FieldOf(5, Int(2)) + FieldOf(5, Bytes([0x02])) + [];
      assert reply == Encoding(5) + body by {
        assert Encoding(5) == [0x05] && Encoding(40) == [0x28];
        assert Encoding(42) == [0x2A] && Encoding(1) == [0x01] && Encoding(2) == [0x02];
      }
      LengthPrefixIgnored(5, body);
      LastValueWins(map[], 5, Int(2), Bytes([0x02]), []);
      assert map[][5 := Bytes([0x02])] == m;
    }
    assert Dps162Reply(Some(map["dps" := map["162" := reply]])) == Some(reply);
    assert Get(m, 5) == Some(Bytes([0x02]));
  }

  /** A result without the DPS 162 entry is "no response", an empty entry is
      a decode failure. */
  lemma MissingOrEmptyReply(other: map<string, seq<Byte>>)
    requires "162" !in other
    ensures Handshake(None) == NoResponse
    ensures Handshake(Some(map["dps" := other])) == NoResponse
    ensures Handshake(Some(map["dps" := other["162" := []]])) == DecodeFailed
  {
    EmptyReplyFails();
  }
}
