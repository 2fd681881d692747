/** The per-type message layouts of aisdump.py and the dispatch on the
    message id. Every parser is a fixed list of field reads; a read that
    starts past the end of the bitstream raises, and the first such error
    aborts the parse. Fields the source scales by 1/10 or 1/600000 are kept in
    their raw integer units. */
module AisMessages {
  import opened Wrappers
  import opened Bits
  import opened Strings
  import opened SixBitAlphabet
  import opened AisDump

  datatype UtcTime = UtcTime(year: nat, month: nat, day: nat, hour: nat, minute: nat, second: nat)

  datatype Dimensions = Dimensions(toBow: nat, toStern: nat, toPort: nat, toStarboard: nat)

  /** The four integers behind the "MM-DD HH:MM" estimated time of arrival. */
  datatype Eta = Eta(month: nat, day: nat, hour: nat, minute: nat)

  /** One destination group of an assignment command, with the spare bits after it. */
  datatype AssignmentGroup = AssignmentGroup(destinationMmsi: nat, offset: nat, increment: nat, spare: nat)

  datatype ClassBFlags = ClassBFlags(csUnit: nat, display: nat, dsc: nat, band: nat, message22: nat, mode: nat, raim: nat)

  /** The decoded dictionaries, one constructor per parser. Speeds and courses
      are in tenths, positions in 1/600000 degree, the draught in tenths of a
      metre; None stands for "Not Available". */
  datatype Message =
    | PositionReport(messageType: nat, repeatIndicator: nat, mmsi: nat, navigationStatus: nat, speed: nat,
        positionAccuracy: nat, longitude: int, latitude: int, course: nat, heading: nat)
    | StaticVoyageReport(messageType: nat, repeatIndicator: nat, mmsi: nat, aisVersion: nat, imoNumber: nat,
        callSign: string, vesselName: string, shipType: nat, dimensions: Dimensions, vesselLength: nat,
        vesselBeam: nat, fixType: nat, eta: Eta, draught: nat, destination: string)
    | BaseStationReport(messageType: nat, repeatIndicator: nat, mmsi: nat, utc: UtcTime, highAccuracy: bool,
        longitude: int, latitude: int, fixType: nat, raimInUse: bool, reserved: nat)
    | Addressed(messageType: nat, repeatIndicator: nat, mmsi: nat, sequenceNumber: nat, destinationMmsi: nat,
        retransmitFlag: nat, spare: nat, applicationId: nat, binaryData: Bits, binaryText: string)
    | Broadcast(messageType: nat, repeatIndicator: nat, mmsi: nat, spare: nat, applicationId: nat,
        binaryText: string)
    | SarAircraft(messageType: nat, repeatIndicator: nat, mmsi: nat, altitude: Option<nat>, sog: Option<nat>,
        highAccuracy: bool, longitude: int, latitude: int, cog: Option<nat>, timestamp: nat, dteAvailable: bool,
        spare: nat)
    | UtcInquiry(messageType: nat, repeatIndicator: nat, mmsi: nat, spare: nat, destinationMmsi: nat, spare2: nat)
    | UtcResponse(messageType: nat, repeatIndicator: nat, mmsi: nat, utc: UtcTime, highAccuracy: bool,
        longitude: int, latitude: int, fixType: nat, spare: nat, raimFlag: nat, communicationState: nat)
    | Assignment(messageType: nat, repeatIndicator: nat, mmsi: nat, spare: nat, first: AssignmentGroup,
        second: Option<AssignmentGroup>)
    | DgnssBroadcast(messageType: nat, repeatIndicator: nat, mmsi: nat, spare: nat, longitude: int, latitude: int,
        spare2: nat, binaryData: Bits)
    | ClassBPosition(messageType: nat, repeatIndicator: nat, mmsi: nat, reserved: nat, sog: Option<nat>,
        highAccuracy: bool, longitude: int, latitude: int, course: nat, trueHeading: Option<nat>, timestamp: nat,
        flags: ClassBFlags, radioStatus: nat)
    | ClassBExtended(messageType: nat, mmsi: nat, speed: nat, positionAccuracy: nat, longitude: int, latitude: int,
        course: nat, heading: nat, timestamp: nat, vesselName: string, shipType: nat, dimensions: Dimensions)
    | DataLinkManagement(messageType: nat, mmsi: nat, offset: nat, offset2: Option<nat>, numSlots: nat,
        timeout: nat, increment: nat)
    | AidToNavigation(messageType: nat, mmsi: nat, aidType: nat, name: string, longitude: int, latitude: int)
    | ChannelManagement(messageType: nat, mmsi: nat, channelA: nat, channelB: nat)
    | StaticReport(messageType: nat, mmsi: nat, partNumber: nat, staticName: Option<string>)
    | SingleSlotBinary(messageType: nat, mmsi: nat, addressedFlag: nat, binaryData: Bits)
    | Default(messageType: nat, data: nat)

  /** parse_default: the message id and the value of everything after it. */
  function ParseDefault(bs: Bits): (r: Result<Message>)
    ensures r.Ok? <==> |bs| > 6
    ensures r.Err? ==> r.error == EmptyBinaryLiteral
    ensures r.Ok? ==> r.value == Default(Uint(bs[..6]), Uint(bs[6..]))
  {
    var messageType :- Field(bs, 0, 6);
    var data :- FieldFrom(bs, 6);
    Ok(Default(messageType, data))
  }

  /** int(bitstream[a:], 2). */
  function FieldFrom(bs: Bits, a: nat): (r: Result<nat>)
    ensures r.Ok? <==> a < |bs|
    ensures r.Err? ==> r.error == EmptyBinaryLiteral
    ensures r.Ok? ==> r.value == Uint(bs[a..])
  {
    if a < |bs| then Ok(Uint(bs[a..])) else Err(EmptyBinaryLiteral)
  }

  /** A two's-complement position: a w-bit longitude at bit a, then a
      (w-1)-bit latitude, both corrected by the sign of their leading bit. */
  function ReadPosition(bs: Bits, a: nat, w: nat): (r: Result<(int, int)>)
    requires w >= 2
    ensures r.Ok? <==> |bs| > a + w
    ensures r.Err? ==> r.error == EmptyBinaryLiteral
    ensures r.Ok? ==> r.value.0 == Signed(Uint(bs[a..a + w]), w)
    ensures r.Ok? ==> -(Pow2(w - 2) as int) <= r.value.1 < Pow2(w - 2)
    ensures r.Ok? ==>
      Uint(Slice(bs, a + w, a + 2 * w - 1)) < Pow2(w - 1) &&
      r.value.1 == Signed(Uint(Slice(bs, a + w, a + 2 * w - 1)), w - 1)
  {
    var rawLongitude :- Field(bs, a, a + w);
    var rawLatitude :- Field(bs, a + w, a + 2 * w - 1);
    Ok((Signed(rawLongitude, w), Signed(rawLatitude, w - 1)))
  }

  /** parse_position_report, for message types 1 to 3: longitude and latitude
      are read unsigned, with no sign correction. */
  function ParsePositionReport(bs: Bits): (r: Result<Message>)
    ensures r.Ok? <==> |bs| > 128
    ensures r.Err? ==> r.error == EmptyBinaryLiteral
    ensures r.Ok? ==> r.value.PositionReport? && r.value.messageType == Uint(bs[..6])
    ensures r.Ok? ==> r.value.mmsi == Uint(bs[8..38]) && r.value.heading == Uint(Slice(bs, 128, 137))
    ensures r.Ok? ==> r.value.longitude == Uint(bs[61..89]) && r.value.latitude == Uint(bs[89..116])
  {
    var messageType :- Field(bs, 0, 6);
    var repeatIndicator :- Field(bs, 6, 8);
    var mmsi :- Field(bs, 8, 38);
    var navigationStatus :- Field(bs, 38, 42);
    var speed :- Field(bs, 50, 60);
    var positionAccuracy :- Field(bs, 60, 61);
    var longitude :- Field(bs, 61, 89);
    var latitude :- Field(bs, 89, 116);
    var course :- Field(bs, 116, 128);
    var heading :- Field(bs, 128, 137);
    Ok(PositionReport(messageType, repeatIndicator, mmsi, navigationStatus, speed, positionAccuracy,
      longitude, latitude, course, heading))
  }

  /** The four ship dimensions, 9, 9, 6 and 6 bits wide, starting at bit a. */
  function ReadDimensions(bs: Bits, a: nat): (r: Result<Dimensions>)
    ensures r.Ok? <==> |bs| > a + 24
    ensures r.Err? ==> r.error == EmptyBinaryLiteral
    ensures r.Ok? ==> r.value == Dimensions(Uint(bs[a..a + 9]), Uint(bs[a + 9..a + 18]),
      Uint(bs[a + 18..a + 24]), Uint(Slice(bs, a + 24, a + 30)))
  {
    var toBow :- Field(bs, a, a + 9);
    var toStern :- Field(bs, a + 9, a + 18);
    var toPort :- Field(bs, a + 18, a + 24);
    var toStarboard :- Field(bs, a + 24, a + 30);
    Ok(Dimensions(toBow, toStern, toPort, toStarboard))
  }

  /** Bits 38-231 of a static and voyage report. */
  datatype VoyageIdentity = VoyageIdentity(aisVersion: nat, imoNumber: nat, callSign: string, vesselName: string)

  /** Bits 232-301 of a static and voyage report. */
  datatype VoyageParticulars = VoyageParticulars(shipType: nat, dimensions: Dimensions, fixType: nat, eta: Eta,
    draught: nat)

  /** The AIS version, IMO number, call sign and vessel name of a static and voyage report. */
  function ReadVoyageIdentity(bs: Bits): (r: Result<VoyageIdentity>)
    ensures r.Ok? <==> |bs| > 226
    ensures r.Err? ==> r.error == EmptyBinaryLiteral
    ensures r.Ok? ==> r.value.aisVersion == Uint(bs[38..40]) && r.value.imoNumber == Uint(bs[40..70])
    ensures r.Ok? ==> Ok(r.value.callSign) == TextField(bs, 70, 42)
    ensures r.Ok? ==> Ok(r.value.vesselName) == TextField(bs, 112, 120)
  {
    var aisVersion :- Field(bs, 38, 40);
    var imoNumber :- Field(bs, 40, 70);
    var callSign :- TextField(bs, 70, 42);
    var vesselName :- TextField(bs, 112, 120);
    Ok(VoyageIdentity(aisVersion, imoNumber, callSign, vesselName))
  }

  /** The ship type, dimensions, fix type, ETA and draught of a static and voyage report. */
  function ReadVoyageParticulars(bs: Bits): (r: Result<VoyageParticulars>)
    ensures r.Ok? <==> |bs| > 294
    ensures r.Err? ==> r.error == EmptyBinaryLiteral
    ensures r.Ok? ==> r.value.shipType == Uint(bs[232..240]) && r.value.fixType == Uint(bs[270..274])
    ensures r.Ok? ==> r.value.dimensions == Dimensions(Uint(bs[240..249]), Uint(bs[249..258]),
      Uint(bs[258..264]), Uint(bs[264..270]))
    ensures r.Ok? ==> r.value.eta == Eta(Uint(bs[274..278]), Uint(bs[278..283]), Uint(bs[283..288]),
      Uint(bs[288..294]))
    ensures r.Ok? ==> r.value.draught == Uint(Slice(bs, 294, 302))
  {
    var shipType :- Field(bs, 232, 240);
    var dimensions :- ReadDimensions(bs, 240);
    var fixType :- Field(bs, 270, 274);
    var etaMonth :- Field(bs, 274, 278);
    var etaDay :- Field(bs, 278, 283);
    var etaHour :- Field(bs, 283, 288);
    var etaMinute :- Field(bs, 288, 294);
    var draught :- Field(bs, 294, 302);
    Ok(VoyageParticulars(shipType, dimensions, fixType,
      Eta(etaMonth, etaDay, etaHour, etaMinute), draught))
  }

  /** parse_static_voyage_report, message type 5. */
  function ParseStaticVoyageReport(bs: Bits): (r: Result<Message>)
    ensures r.Ok? <==> |bs| > 416
    ensures r.Err? ==> r.error == EmptyBinaryLiteral
    ensures r.Ok? ==> r.value.StaticVoyageReport? && r.value.messageType == Uint(bs[..6])
    ensures r.Ok? ==> r.value.vesselLength == r.value.dimensions.toBow + r.value.dimensions.toStern
    ensures r.Ok? ==> r.value.vesselBeam == r.value.dimensions.toPort + r.value.dimensions.toStarboard
    ensures r.Ok? ==> |r.value.callSign| <= 7 && |r.value.vesselName| <= 20 && |r.value.destination| <= 20
  {
    var messageType :- Field(bs, 0, 6);
    var repeatIndicator :- Field(bs, 6, 8);
    var mmsi :- Field(bs, 8, 38);
    var identity :- ReadVoyageIdentity(bs);
    var particulars :- ReadVoyageParticulars(bs);
    var destination :- TextField(bs, 302, 120);
    var dimensions := particulars.dimensions;
    Ok(StaticVoyageReport(messageType, repeatIndicator, mmsi, identity.aisVersion, identity.imoNumber,
      identity.callSign, identity.vesselName, particulars.shipType, dimensions,
      dimensions.toBow + dimensions.toStern, dimensions.toPort + dimensions.toStarboard, particulars.fixType,
      particulars.eta, particulars.draught, destination))
  }

  /** The longitude adjustment of the base station report, in raw units:
      180 degrees and more (108,000,000 units) wrap down by 360 degrees. */
  function WrapLongitude(raw: nat): (v: int)
    requires raw < Pow2(28)
    ensures -108_000_000 <= v < 108_000_000
    ensures v < 0 <==> 108_000_000 <= raw < 216_000_000
    ensures v == raw || v == raw - 216_000_000
  {
    Pow2Values();
    if raw >= 108_000_000 then raw - 216_000_000 else raw
  }

  /** The latitude adjustment of the base station report, in raw units:
      90 degrees and more (54,000,000 units) wrap down by 180 degrees. */
  function WrapLatitude(raw: nat): (v: int)
    requires raw < Pow2(27)
    ensures -54_000_000 <= v < 54_000_000
    ensures v < 0 <==> 54_000_000 <= raw < 108_000_000
    ensures v == raw || v == raw - 108_000_000
  {
    Pow2Values();
    if raw >= 54_000_000 then raw - 108_000_000 else raw
  }

  /** The base station wrap is not the two's-complement correction the other
      position-carrying parsers apply: 181 degrees (108,600,000 units, the
      not-available longitude of ITU-R M.1371) wraps to -179 degrees, and 91
      degrees of latitude to -89, where the correction keeps both. */
  lemma WrapIsNotTwosComplement()
    ensures Pow2(28) > 108_600_000 && Pow2(27) > 54_600_000
    ensures WrapLongitude(108_600_000) == -107_400_000 && Signed(108_600_000, 28) == 108_600_000
    ensures WrapLatitude(54_600_000) == -53_400_000 && Signed(54_600_000, 27) == 54_600_000
  {
    Pow2Values();
  }

  /** parse_base_station_report, message type 4. */
  function ParseBaseStationReport(bs: Bits): (r: Result<Message>)
    ensures r.Ok? <==> |bs| > 149
    ensures r.Err? ==> r.error == EmptyBinaryLiteral
    ensures r.Ok? ==> r.value.BaseStationReport? && r.value.messageType == Uint(bs[..6])
    ensures r.Ok? ==> r.value.longitude == WrapLongitude(Uint(bs[79..107]))
    ensures r.Ok? ==> r.value.latitude == WrapLatitude(Uint(bs[107..134]))
    ensures r.Ok? ==> (r.value.highAccuracy <==> bs[78]) && (r.value.raimInUse <==> bs[148])
  {
    var messageType :- Field(bs, 0, 6);
    var repeatIndicator :- Field(bs, 6, 8);
    var mmsi :- Field(bs, 8, 38);
    var year :- Field(bs, 38, 52);
    var month :- Field(bs, 52, 56);
    var day :- Field(bs, 56, 61);
    var hour :- Field(bs, 61, 66);
    var minute :- Field(bs, 66, 72);
    var second :- Field(bs, 72, 78);
    var positionAccuracy :- Field(bs, 78, 79);
    var rawLongitude :- Field(bs, 79, 107);
    var rawLatitude :- Field(bs, 107, 134);
    var fixType :- Field(bs, 134, 138);
    var raimFlag :- Field(bs, 148, 149);
    var reserved :- Field(bs, 149, 150);
    OneBit(bs, 78);
    OneBit(bs, 148);
    Ok(BaseStationReport(messageType, repeatIndicator, mmsi, UtcTime(year, month, day, hour, minute, second),
      positionAccuracy == 1, WrapLongitude(rawLongitude), WrapLatitude(rawLatitude), fixType, raimFlag == 1,
      reserved))
  }

  /** A one-bit field is 1 exactly when its bit is set. */
  lemma OneBit(bs: Bits, a: nat)
    requires a < |bs|
    ensures Field(bs, a, a + 1) == Ok(if bs[a] then 1 else 0)
  {
    assert bs[a..a + 1][..0] == [];
  }

  /** parse_addressed, message type 6: the payload after bit 88 is kept as
      bits and also rendered by the decode attempt. */
  function ParseAddressed(bs: Bits): (r: Result<Message>)
    ensures r.Ok? <==> |bs| > 72
    ensures r.Err? ==> r.error == EmptyBinaryLiteral
    ensures r.Ok? ==> r.value.Addressed? && r.value.messageType == Uint(bs[..6])
    ensures r.Ok? ==> r.value.binaryData == SliceFrom(bs, 88)
    ensures r.Ok? ==> r.value.binaryText == BinaryPayloadText(SliceFrom(bs, 88))
  {
    var messageType :- Field(bs, 0, 6);
    var repeatIndicator :- Field(bs, 6, 8);
    var mmsiSender :- Field(bs, 8, 38);
    var sequenceNumber :- Field(bs, 38, 40);
    var destinationMmsi :- Field(bs, 40, 70);
    var retransmitFlag :- Field(bs, 70, 71);
    var spare :- Field(bs, 71, 72);
    var applicationId :- Field(bs, 72, 88);
    var payload := SliceFrom(bs, 88);
    Ok(Addressed(messageType, repeatIndicator, mmsiSender, sequenceNumber, destinationMmsi, retransmitFlag,
      spare, applicationId, payload, BinaryPayloadText(payload)))
  }

  /** parse_broadcast, message type 8: only the decode attempt of the payload is kept. */
  function ParseBroadcast(bs: Bits): (r: Result<Message>)
    ensures r.Ok? <==> |bs| > 40
    ensures r.Err? ==> r.error == EmptyBinaryLiteral
    ensures r.Ok? ==> r.value.Broadcast? && r.value.messageType == Uint(bs[..6])
    ensures r.Ok? ==> r.value.binaryText == BinaryPayloadText(SliceFrom(bs, 56))
  {
    var messageType :- Field(bs, 0, 6);
    var repeatIndicator :- Field(bs, 6, 8);
    var mmsi :- Field(bs, 8, 38);
    var spare :- Field(bs, 38, 40);
    var applicationId :- Field(bs, 40, 56);
    Ok(Broadcast(messageType, repeatIndicator, mmsi, spare, applicationId, BinaryPayloadText(SliceFrom(bs, 56))))
  }

  /** The "Not Available" mapping: a raw value at or above the sentinel
      limit is not available, any other raw value is kept. */
  function NotAvailableFrom(raw: nat, limit: nat): (v: Option<nat>)
    ensures v.None? <==> raw >= limit
    ensures v.Some? ==> v.value == raw && raw < limit
  {
    if raw < limit then Some(raw) else None
  }

  /** parse_sar_aircraft, message type 9: altitude 4095, speed 1023 and a
      course of 3600 or more are "Not Available"; the position is corrected
      as two's complement. */
  function ParseSarAircraft(bs: Bits): (r: Result<Message>)
    ensures r.Ok? <==> |bs| > 135
    ensures r.Err? ==> r.error == EmptyBinaryLiteral
    ensures r.Ok? ==> r.value.SarAircraft? && r.value.messageType == Uint(bs[..6])
    ensures r.Ok? ==> r.value.altitude == NotAvailableFrom(Uint(bs[38..50]), 4095)
    ensures r.Ok? ==> r.value.sog == NotAvailableFrom(Uint(bs[50..60]), 1023)
    ensures r.Ok? ==> r.value.cog == NotAvailableFrom(Uint(bs[116..128]), 3600)
    ensures r.Ok? ==> r.value.longitude == Signed(Uint(bs[61..89]), 28)
    ensures r.Ok? ==> r.value.latitude == Signed(Uint(bs[89..116]), 27)
    ensures r.Ok? ==> (r.value.dteAvailable <==> !bs[134])
  {
    var messageType :- Field(bs, 0, 6);
    var repeatIndicator :- Field(bs, 6, 8);
    var mmsi :- Field(bs, 8, 38);
    var altitude :- Field(bs, 38, 50);
    var sog :- Field(bs, 50, 60);
    var positionAccuracy :- Field(bs, 60, 61);
    var position :- ReadPosition(bs, 61, 28);
    var cog :- Field(bs, 116, 128);
    var timestamp :- Field(bs, 128, 134);
    var dte :- Field(bs, 134, 135);
    var spare :- Field(bs, 135, 138);
    OneBit(bs, 134);
    Ok(SarAircraft(messageType, repeatIndicator, mmsi,
      NotAvailableFrom(altitude, 4095), NotAvailableFrom(sog, 1023),
      positionAccuracy == 1, position.0, position.1, NotAvailableFrom(cog, 3600),
      timestamp, dte == 0, spare))
  }

  /** The altitude and speed sentinels of message type 9 are the all-ones
      values of their 12-bit and 10-bit fields: only that one raw value is
      "Not Available". */
  lemma SarSentinels(altitude: nat, sog: nat)
    requires altitude < Pow2(12) && sog < Pow2(10)
    ensures NotAvailableFrom(altitude, 4095).None? <==> altitude == Pow2(12) - 1
    ensures NotAvailableFrom(sog, 1023).None? <==> sog == Pow2(10) - 1
  {
    Pow2Values();
  }

  /** parse_utc_req, message type 10. */
  function ParseUtcInquiry(bs: Bits): (r: Result<Message>)
    ensures r.Ok? <==> |bs| > 70
    ensures r.Err? ==> r.error == EmptyBinaryLiteral
    ensures r.Ok? ==> r.value.UtcInquiry? && r.value.messageType == Uint(bs[..6])
    ensures r.Ok? ==> r.value.mmsi == Uint(bs[8..38]) && r.value.destinationMmsi == Uint(bs[40..70])
  {
    var messageType :- Field(bs, 0, 6);
    var repeatIndicator :- Field(bs, 6, 8);
    var mmsi :- Field(bs, 8, 38);
    var spare :- Field(bs, 38, 40);
    var destinationMmsi :- Field(bs, 40, 70);
    var spare2 :- Field(bs, 70, 72);
    Ok(UtcInquiry(messageType, repeatIndicator, mmsi, spare, destinationMmsi, spare2))
  }

  /** parse_utc_resp, message type 11: unlike message type 4, the position is
      corrected as two's complement. */
  function ParseUtcResponse(bs: Bits): (r: Result<Message>)
    ensures r.Ok? <==> |bs| > 149
    ensures r.Err? ==> r.error == EmptyBinaryLiteral
    ensures r.Ok? ==> r.value.UtcResponse? && r.value.messageType == Uint(bs[..6])
    ensures r.Ok? ==> r.value.longitude == Signed(Uint(bs[79..107]), 28)
    ensures r.Ok? ==> r.value.latitude == Signed(Uint(bs[107..134]), 27)
  {
    var messageType :- Field(bs, 0, 6);
    var repeatIndicator :- Field(bs, 6, 8);
    var mmsi :- Field(bs, 8, 38);
    var year :- Field(bs, 38, 52);
    var month :- Field(bs, 52, 56);
    var day :- Field(bs, 56, 61);
    var hour :- Field(bs, 61, 66);
    var minute :- Field(bs, 66, 72);
    var second :- Field(bs, 72, 78);
    var positionAccuracy :- Field(bs, 78, 79);
    var position :- ReadPosition(bs, 79, 28);
    var fixType :- Field(bs, 134, 138);
    var spare :- Field(bs, 138, 148);
    var raimFlag :- Field(bs, 148, 149);
    var communicationState :- Field(bs, 149, 168);
    Ok(UtcResponse(messageType, repeatIndicator, mmsi, UtcTime(year, month, day, hour, minute, second),
      positionAccuracy == 1, position.0, position.1, fixType, spare, raimFlag,
      communicationState))
  }

  /** A destination group of an assignment command starting at bit a. */
  function ReadAssignmentGroup(bs: Bits, a: nat): (r: Result<AssignmentGroup>)
    ensures r.Ok? <==> |bs| > a + 52
    ensures r.Err? ==> r.error == EmptyBinaryLiteral
  {
    var destinationMmsi :- Field(bs, a, a + 30);
    var offset :- Field(bs, a + 30, a + 42);
    var increment :- Field(bs, a + 42, a + 52);
    var spare :- Field(bs, a + 52, a + 54);
    Ok(AssignmentGroup(destinationMmsi, offset, increment, spare))
  }

  /** parse_assignment, message type 16: the second destination group is
      read only when the bitstream is longer than 94 bits. */
  function ParseAssignment(bs: Bits): (r: Result<Message>)
    ensures r.Ok? <==> (92 < |bs| <= 94) || |bs| > 146
    ensures r.Err? ==> r.error == EmptyBinaryLiteral
    ensures r.Ok? ==> r.value.Assignment? && r.value.messageType == Uint(bs[..6])
    ensures r.Ok? ==> (r.value.second.Some? <==> |bs| > 94)
  {
    var messageType :- Field(bs, 0, 6);
    var repeatIndicator :- Field(bs, 6, 8);
    var mmsi :- Field(bs, 8, 38);
    var spare :- Field(bs, 38, 40);
    var first :- ReadAssignmentGroup(bs, 40);
    if |bs| > 94 then
      var second :- ReadAssignmentGroup(bs, 94);
      Ok(Assignment(messageType, repeatIndicator, mmsi, spare, first, Some(second)))
    else
      Ok(Assignment(messageType, repeatIndicator, mmsi, spare, first, None))
  }

  /** parse_dgnss_broadcast, message type 17: an 18-bit longitude and a
      17-bit latitude, both two's complement. */
  function ParseDgnssBroadcast(bs: Bits): (r: Result<Message>)
    ensures r.Ok? <==> |bs| > 75
    ensures r.Err? ==> r.error == EmptyBinaryLiteral
    ensures r.Ok? ==> r.value.DgnssBroadcast? && r.value.messageType == Uint(bs[..6])
    ensures r.Ok? ==> r.value.longitude == Signed(Uint(bs[40..58]), 18)
    ensures r.Ok? ==> r.value.latitude == Signed(Uint(bs[58..75]), 17)
    ensures r.Ok? ==> r.value.binaryData == SliceFrom(bs, 80)
  {
    var messageType :- Field(bs, 0, 6);
    var repeatIndicator :- Field(bs, 6, 8);
    var mmsi :- Field(bs, 8, 38);
    var spare :- Field(bs, 38, 40);
    var position :- ReadPosition(bs, 40, 18);
    var spare2 :- Field(bs, 75, 80);
    Ok(DgnssBroadcast(messageType, repeatIndicator, mmsi, spare, position.0,
      position.1, spare2, SliceFrom(bs, 80)))
  }

  /** The seven one-bit flags of a class B position report, bits 139-145. */
  function ReadClassBFlags(bs: Bits): (r: Result<ClassBFlags>)
    ensures r.Ok? <==> |bs| > 145
    ensures r.Err? ==> r.error == EmptyBinaryLiteral
  {
    var csUnit :- Field(bs, 139, 140);
    var display :- Field(bs, 140, 141);
    var dsc :- Field(bs, 141, 142);
    var band :- Field(bs, 142, 143);
    var message22 :- Field(bs, 143, 144);
    var mode :- Field(bs, 144, 145);
    var raim :- Field(bs, 145, 146);
    Ok(ClassBFlags(csUnit, display, dsc, band, message22, mode, raim))
  }

  /** parse_class_b_pos_report, message type 18: a speed of 1023 or more and a
      heading of 360 or more are "Not Available". */
  function ParseClassBPosition(bs: Bits): (r: Result<Message>)
    ensures r.Ok? <==> |bs| > 146
    ensures r.Err? ==> r.error == EmptyBinaryLiteral
    ensures r.Ok? ==> r.value.ClassBPosition? && r.value.messageType == Uint(bs[..6])
    ensures r.Ok? ==> r.value.sog == NotAvailableFrom(Uint(bs[46..56]), 1023)
    ensures r.Ok? ==> r.value.trueHeading == NotAvailableFrom(Uint(bs[124..133]), 360)
    ensures r.Ok? ==> r.value.longitude == Signed(Uint(bs[57..85]), 28)
    ensures r.Ok? ==> r.value.latitude == Signed(Uint(bs[85..112]), 27)
  {
    var messageType :- Field(bs, 0, 6);
    var repeatIndicator :- Field(bs, 6, 8);
    var mmsi :- Field(bs, 8, 38);
    var reserved :- Field(bs, 38, 46);
    var sog :- Field(bs, 46, 56);
    var positionAccuracy :- Field(bs, 56, 57);
    var position :- ReadPosition(bs, 57, 28);
    var course :- Field(bs, 112, 124);
    var trueHeading :- Field(bs, 124, 133);
    var timestamp :- Field(bs, 133, 139);
    var flags :- ReadClassBFlags(bs);
    var radioStatus :- Field(bs, 146, 166);
    Ok(ClassBPosition(messageType, repeatIndicator, mmsi, reserved,
      NotAvailableFrom(sog, 1023), positionAccuracy == 1, position.0, position.1,
      course, NotAvailableFrom(trueHeading, 360),
      timestamp, flags, radioStatus))
  }

  /** parse_class_b_ext_pos_report, message type 19: no repeat indicator and
      no not-available mapping. */
  function ParseClassBExtended(bs: Bits): (r: Result<Message>)
    ensures r.Ok? <==> |bs| > 295
    ensures r.Err? ==> r.error == EmptyBinaryLiteral
    ensures r.Ok? ==> r.value.ClassBExtended? && r.value.messageType == Uint(bs[..6])
    ensures r.Ok? ==> r.value.longitude == Signed(Uint(bs[57..85]), 28)
    ensures r.Ok? ==> r.value.latitude == Signed(Uint(bs[85..112]), 27)
    ensures r.Ok? ==> |r.value.vesselName| <= 20
  {
    var messageType :- Field(bs, 0, 6);
    var mmsi :- Field(bs, 8, 38);
    var speed :- Field(bs, 46, 56);
    var positionAccuracy :- Field(bs, 56, 57);
    var position :- ReadPosition(bs, 57, 28);
    var course :- Field(bs, 112, 124);
    var heading :- Field(bs, 124, 133);
    var timestamp :- Field(bs, 133, 139);
    var vesselName :- TextField(bs, 143, 120);
    var shipType :- Field(bs, 263, 271);
    var dimensions :- ReadDimensions(bs, 271);
    Ok(ClassBExtended(messageType, mmsi, speed, positionAccuracy, position.0,
      position.1, course, heading, timestamp, vesselName, shipType, dimensions))
  }

  /** parse_dl_mgmt, message type 20: the second offset is read only when the
      bitstream is longer than 81 bits. */
  function ParseDataLinkManagement(bs: Bits): (r: Result<Message>)
    ensures r.Ok? <==> |bs| > 59
    ensures r.Err? ==> r.error == EmptyBinaryLiteral
    ensures r.Ok? ==> r.value.DataLinkManagement? && r.value.messageType == Uint(bs[..6])
    ensures r.Ok? ==> (r.value.offset2.Some? <==> |bs| > 81)
    ensures r.Ok? && r.value.offset2.Some? ==> r.value.offset2.value == Uint(bs[69..81])
  {
    var messageType :- Field(bs, 0, 6);
    var mmsi :- Field(bs, 8, 38);
    var offset :- Field(bs, 40, 52);
    var numSlots :- Field(bs, 52, 56);
    var timeout :- Field(bs, 56, 59);
    var increment :- Field(bs, 59, 69);
    var offset2 := if |bs| > 81 then Some(Field(bs, 69, 81).value) else None;
    Ok(DataLinkManagement(messageType, mmsi, offset, offset2, numSlots, timeout, increment))
  }

  /** parse_aids_to_nav_report, message type 21. */
  function ParseAidToNavigation(bs: Bits): (r: Result<Message>)
    ensures r.Ok? <==> |bs| > 191
    ensures r.Err? ==> r.error == EmptyBinaryLiteral
    ensures r.Ok? ==> r.value.AidToNavigation? && r.value.messageType == Uint(bs[..6])
    ensures r.Ok? ==> r.value.longitude == Signed(Uint(bs[163..191]), 28)
    ensures r.Ok? ==>
      Uint(Slice(bs, 191, 218)) < Pow2(27) &&
      r.value.latitude == Signed(Uint(Slice(bs, 191, 218)), 27)
    ensures r.Ok? ==> |r.value.name| <= 20
  {
    var messageType :- Field(bs, 0, 6);
    var mmsi :- Field(bs, 8, 38);
    var aidType :- Field(bs, 38, 43);
    var name :- TextField(bs, 43, 120);
    var position :- ReadPosition(bs, 163, 28);
    Ok(AidToNavigation(messageType, mmsi, aidType, name, position.0, position.1))
  }

  /** parse_channel_mgmt, message type 22. */
  function ParseChannelManagement(bs: Bits): (r: Result<Message>)
    ensures r.Ok? <==> |bs| > 52
    ensures r.Err? ==> r.error == EmptyBinaryLiteral
    ensures r.Ok? ==> r.value.ChannelManagement? && r.value.messageType == Uint(bs[..6])
    ensures r.Ok? ==> r.value.channelA == Uint(bs[40..52]) && r.value.channelB == Uint(Slice(bs, 52, 64))
  {
    var messageType :- Field(bs, 0, 6);
    var mmsi :- Field(bs, 8, 38);
    var channelA :- Field(bs, 40, 52);
    var channelB :- Field(bs, 52, 64);
    Ok(ChannelManagement(messageType, mmsi, channelA, channelB))
  }

  /** parse_static_report, message type 24: the name is decoded only for part
      0, and a missing or empty name is "Not Available". */
  function ParseStaticReport(bs: Bits): (r: Result<Message>)
    ensures r.Ok? <==> |bs| > 38 && (Uint(Slice(bs, 38, 40)) != 0 || |bs| > 154)
    ensures r.Err? ==> r.error == EmptyBinaryLiteral
    ensures r.Ok? ==> r.value.StaticReport? && r.value.messageType == Uint(bs[..6])
    ensures r.Ok? ==> r.value.partNumber == Uint(Slice(bs, 38, 40))
    ensures r.Ok? ==> (r.value.staticName.None? <==>
      r.value.partNumber != 0 || TextField(bs, 40, 120) == Ok(""))
    ensures r.Ok? && r.value.staticName.Some? ==>
      r.value.partNumber == 0 && TextField(bs, 40, 120) == Ok(r.value.staticName.value)
  {
    var messageType :- Field(bs, 0, 6);
    var mmsi :- Field(bs, 8, 38);
    var partNumber :- Field(bs, 38, 40);
    if partNumber == 0 then
      var name :- TextField(bs, 40, 120);
      Ok(StaticReport(messageType, mmsi, partNumber, if name == "" then None else Some(name)))
    else
      Ok(StaticReport(messageType, mmsi, partNumber, None))
  }

  /** parse_single_slot_binary, message type 25: the data after bit 40 is kept as bits. */
  function ParseSingleSlotBinary(bs: Bits): (r: Result<Message>)
    ensures r.Ok? <==> |bs| > 38
    ensures r.Err? ==> r.error == EmptyBinaryLiteral
    ensures r.Ok? ==> r.value.SingleSlotBinary? && r.value.messageType == Uint(bs[..6])
    ensures r.Ok? ==> r.value.binaryData == SliceFrom(bs, 40)
  {
    var messageType :- Field(bs, 0, 6);
    var mmsi :- Field(bs, 8, 38);
    var addressedFlag :- Field(bs, 38, 39);
    Ok(SingleSlotBinary(messageType, mmsi, addressedFlag, SliceFrom(bs, 40)))
  }

  /** The message ids parse_ais has a parser of its own for. */
  const KnownTypes: set<nat> := {1, 2, 3, 4, 5, 6, 8, 9, 10, 11, 16, 17, 18, 19, 20, 21, 22, 24, 25}

  /** Which message ids each kind of decoded message stands for, by the
      message names of ITU-R M.1371; the default form stands for every id
      without a parser of its own. */
  predicate Serves(m: Message, id: nat)
  {
    match m
    case PositionReport(_, _, _, _, _, _, _, _, _, _) => 1 <= id <= 3
    case StaticVoyageReport(_, _, _, _, _, _, _, _, _, _, _, _, _, _, _) => id == 5
    case BaseStationReport(_, _, _, _, _, _, _, _, _, _) => id == 4
    case Addressed(_, _, _, _, _, _, _, _, _, _) => id == 6
    case Broadcast(_, _, _, _, _, _) => id == 8
    case SarAircraft(_, _, _, _, _, _, _, _, _, _, _, _) => id == 9
    case UtcInquiry(_, _, _, _, _, _) => id == 10
    case UtcResponse(_, _, _, _, _, _, _, _, _, _, _) => id == 11
    case Assignment(_, _, _, _, _, _) => id == 16
    case DgnssBroadcast(_, _, _, _, _, _, _, _) => id == 17
    case ClassBPosition(_, _, _, _, _, _, _, _, _, _, _, _, _) => id == 18
    case ClassBExtended(_, _, _, _, _, _, _, _, _, _, _, _) => id == 19
    case DataLinkManagement(_, _, _, _, _, _, _) => id == 20
    case AidToNavigation(_, _, _, _, _, _) => id == 21
    case ChannelManagement(_, _, _, _) => id == 22
    case StaticReport(_, _, _, _) => id == 24
    case SingleSlotBinary(_, _, _, _) => id == 25
    case Default(_, _) => id !in KnownTypes
  }

  /** When the layout of message id `id` can be read from bs without a read
      starting past the end: the last field each layout reads must start
      inside the bitstream. */
  predicate Complete(id: nat, bs: Bits)
  {
    if 1 <= id <= 3 then |bs| > 128
    else if id == 4 || id == 11 then |bs| > 149
    else if id == 5 then |bs| > 416
    else if id == 6 then |bs| > 72
    else if id == 8 then |bs| > 40
    else if id == 9 then |bs| > 135
    else if id == 10 then |bs| > 70
    else if id == 16 then 92 < |bs| <= 94 || |bs| > 146
    else if id == 17 then |bs| > 75
    else if id == 18 then |bs| > 146
    else if id == 19 then |bs| > 295
    else if id == 20 then |bs| > 59
    else if id == 21 then |bs| > 191
    else if id == 22 then |bs| > 52
    else if id == 24 then |bs| > 38 && (Uint(Slice(bs, 38, 40)) != 0 || |bs| > 154)
    else if id == 25 then |bs| > 38
    else |bs| > 6
  }

  /** The parser parse_ais runs for message id `id`: parse_default for
      every id without a parser of its own. */
  function Dispatch(id: nat, bs: Bits): (r: Result<Message>)
    ensures id !in KnownTypes ==> r == ParseDefault(bs)
  {
    if 1 <= id <= 3 then ParsePositionReport(bs)
    else if id == 4 then ParseBaseStationReport(bs)
    else if id == 5 then ParseStaticVoyageReport(bs)
    else if id == 6 then ParseAddressed(bs)
    else if id == 8 then ParseBroadcast(bs)
    else if id == 9 then ParseSarAircraft(bs)
    else if id == 10 then ParseUtcInquiry(bs)
    else if id == 11 then ParseUtcResponse(bs)
    else if id == 16 then ParseAssignment(bs)
    else if id == 17 then ParseDgnssBroadcast(bs)
    else if id == 18 then ParseClassBPosition(bs)
    else if id == 19 then ParseClassBExtended(bs)
    else if id == 20 then ParseDataLinkManagement(bs)
    else if id == 21 then ParseAidToNavigation(bs)
    else if id == 22 then ParseChannelManagement(bs)
    else if id == 24 then ParseStaticReport(bs)
    else if id == 25 then ParseSingleSlotBinary(bs)
    else ParseDefault(bs)
  }

  /** parse_ais: the parser is chosen by the value of the first six bits. */
  function ParseAis(bs: Bits): (r: Result<Message>)
    ensures r.Err? ==> r.error == EmptyBinaryLiteral
    ensures |bs| > 0 ==> r == Dispatch(Uint(Slice(bs, 0, 6)), bs)
  {
    var id :- Field(bs, 0, 6);
    Dispatch(id, bs)
  }

  /** The parser parse_ais picks for an id produces the kind of message that
      id names, sets that id as its message id, and succeeds exactly when the
      bitstream is long enough for the layout of that id. */
  lemma DispatchServes(id: nat, bs: Bits)
    requires |bs| > 0 && id == Uint(Slice(bs, 0, 6))
    ensures Dispatch(id, bs).Ok? <==> Complete(id, bs)
    ensures Dispatch(id, bs).Ok? ==> Dispatch(id, bs).value.messageType == id
    ensures Dispatch(id, bs).Ok? ==> Serves(Dispatch(id, bs).value, id)
  {
    assert Field(bs, 0, 6) == Ok(id);
    if id !in KnownTypes {
      assert Dispatch(id, bs) == ParseDefault(bs);
    }
  }

  /** ParseAis in terms of the bitstream alone. */
  lemma ParseAisServes(bs: Bits)
    ensures ParseAis(bs).Ok? <==> |bs| > 0 && Complete(Uint(Slice(bs, 0, 6)), bs)
    ensures ParseAis(bs).Ok? ==> ParseAis(bs).value.messageType == Uint(Slice(bs, 0, 6))
    ensures ParseAis(bs).Ok? ==> Serves(ParseAis(bs).value, Uint(Slice(bs, 0, 6)))
  {
    if |bs| > 0 {
      DispatchServes(Uint(Slice(bs, 0, 6)), bs);
    }
  }

  /** An armored payload decoded and parsed, as main does with each complete
      payload: a bad wire character fails first, and the message id is the
      code of the first wire character. */
  function DecodeMessage(payload: string): (r: Result<Message>)
    ensures (exists i :: 0 <= i < |payload| && !IsArmorChar(payload[i])) ==> r == Err(InvalidAisCharacter)
    ensures r.Ok? ==> |payload| >= 1 && UnarmorChar(payload[0]) == Ok(r.value.messageType)
    ensures r.Ok? ==> Serves(r.value, r.value.messageType)
  {
    var bs :- Unarmor(payload);
    var m :- ParseAis(bs);
    UnarmorFirst(payload);
    ParseAisServes(bs);
    Ok(m)
  }
}
