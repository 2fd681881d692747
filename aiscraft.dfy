/** The type-5 message builder of aiscraft.py: six-bit text encoding, the
    fixed-width bitstream layout, armoring, the NMEA 0183 checksum and the
    splitting of the armored payload into AIVDM sentences. */
module AisCraft {
  import opened Wrappers
  import opened Bits
  import opened Strings
  import opened SixBitAlphabet
  import opened AisDump

  // ---- Six-bit text ----

  /** upper(text).ljust(length)[:length]: exactly `length` characters, the
      upper-cased text first and spaces after it. */
  function Padded(text: string, length: nat): (p: string)
    ensures |p| == length
    ensures forall i :: 0 <= i < length ==> p[i] == if i < |text| then UpperChar(text[i]) else ' '
  {
    Take(LeftJustify(Upper(text), length, ' '), length)
  }

  /** The six bits of each character's alphabet index, in order; the
      ValueError of str.index for a character outside the alphabet. */
  function EncodeChars(s: string): (r: Result<Bits>)
    ensures r.Ok? <==> forall i :: 0 <= i < |s| ==> IsTextChar(s[i])
    ensures r.Err? ==> r.error == CharacterNotInAlphabet
    ensures r.Ok? ==> |r.value| == 6 * |s|
  {
    if |s| == 0 then Ok([])
    else
      var front :- EncodeChars(s[..|s| - 1]);
      var code :- Code(s[|s| - 1]);
      SixBitWidth(code);
      Ok(front + Format(code, 6))
  }

  /** encode_for_ais(text, length). */
  function EncodeForAis(text: string, length: nat): (r: Result<Bits>)
    ensures r.Ok? <==> forall i :: 0 <= i < length ==> IsTextChar(Padded(text, length)[i])
    ensures r.Err? ==> r.error == CharacterNotInAlphabet
    ensures r.Ok? ==> |r.value| == 6 * length
  {
    EncodeChars(Padded(text, length))
  }

  // ---- The type-5 bitstream ----

  /** The inputs build_bitstream reads, with the draught already in integer
      tenths of a metre. */
  datatype StaticVoyageData = StaticVoyageData(
    repeatIndicator: nat, mmsi: nat, aisVersion: nat, imoNumber: nat,
    callSign: string, vesselName: string, shipType: nat,
    dimensionToBow: nat, dimensionToStern: nat, dimensionToPort: nat, dimensionToStarboard: nat,
    positionFixType: nat, etaMonth: nat, etaDay: nat, etaHour: nat, etaMinute: nat,
    draught: nat, destination: string, dte: nat)

  /** Every integer field fits the width the layout gives it. */
  predicate Fits(d: StaticVoyageData)
  {
    HeaderFits(d) && ParticularsFit(d) && d.dte < Pow2(1)
  }

  predicate HeaderFits(d: StaticVoyageData)
  {
    d.repeatIndicator < Pow2(2) && d.mmsi < Pow2(30) && d.aisVersion < Pow2(2) && d.imoNumber < Pow2(30)
  }

  predicate ParticularsFit(d: StaticVoyageData)
  {
    d.shipType < Pow2(8) && DimensionsFit(d) && d.positionFixType < Pow2(4) && EtaFits(d) && d.draught < Pow2(8)
  }

  predicate DimensionsFit(d: StaticVoyageData)
  {
    d.dimensionToBow < Pow2(9) && d.dimensionToStern < Pow2(9) &&
    d.dimensionToPort < Pow2(6) && d.dimensionToStarboard < Pow2(6)
  }

  predicate EtaFits(d: StaticVoyageData)
  {
    d.etaMonth < Pow2(4) && d.etaDay < Pow2(5) && d.etaHour < Pow2(5) && d.etaMinute < Pow2(6)
  }

  /** The fields of the first 70 bits: id 5, repeat indicator, MMSI, AIS version, IMO. */
  function Header(d: StaticVoyageData): Bits
  {
    Format(5, 6) + Format(d.repeatIndicator, 2) + Format(d.mmsi, 30) +
    Format(d.aisVersion, 2) + Format(d.imoNumber, 30)
  }

  /** The fields between the vessel name and the destination: ship type,
      dimensions, fix type, ETA and draught. */
  function Particulars(d: StaticVoyageData): Bits
  {
    Format(d.shipType, 8) + DimensionBits(d) + Format(d.positionFixType, 4) + EtaBits(d) +
    Format(d.draught, 8)
  }

  /** The four dimensions, 30 bits. */
  function DimensionBits(d: StaticVoyageData): Bits
  {
    Format(d.dimensionToBow, 9) + Format(d.dimensionToStern, 9) +
    Format(d.dimensionToPort, 6) + Format(d.dimensionToStarboard, 6)
  }

  /** Month, day, hour and minute of the ETA, 20 bits. */
  function EtaBits(d: StaticVoyageData): Bits
  {
    Format(d.etaMonth, 4) + Format(d.etaDay, 5) + Format(d.etaHour, 5) + Format(d.etaMinute, 6)
  }

  /** The concatenation build_bitstream forms, given the encoded text fields. */
  function Layout(d: StaticVoyageData, callSign: Bits, vesselName: Bits, destination: Bits): Bits
  {
    Header(d) + callSign + vesselName + Particulars(d) + destination + Format(d.dte, 1) + Zeros(5)
  }

  lemma HeaderLength(d: StaticVoyageData)
    ensures |Header(d)| >= 70
    ensures |Header(d)| == 70 <==> HeaderFits(d)
  {
    FormatWidth(5, 6);
    FormatWidth(d.repeatIndicator, 2);
    FormatWidth(d.mmsi, 30);
    FormatWidth(d.aisVersion, 2);
    FormatWidth(d.imoNumber, 30);
  }

  lemma DimensionLength(d: StaticVoyageData)
    ensures |DimensionBits(d)| >= 30
    ensures |DimensionBits(d)| == 30 <==> DimensionsFit(d)
  {
    FormatWidth(d.dimensionToBow, 9);
    FormatWidth(d.dimensionToStern, 9);
    FormatWidth(d.dimensionToPort, 6);
    FormatWidth(d.dimensionToStarboard, 6);
  }

  lemma EtaLength(d: StaticVoyageData)
    ensures |EtaBits(d)| >= 20
    ensures |EtaBits(d)| == 20 <==> EtaFits(d)
  {
    FormatWidth(d.etaMonth, 4);
    FormatWidth(d.etaDay, 5);
    FormatWidth(d.etaHour, 5);
    FormatWidth(d.etaMinute, 6);
  }

  lemma ParticularsLength(d: StaticVoyageData)
    ensures |Particulars(d)| >= 70
    ensures |Particulars(d)| == 70 <==> ParticularsFit(d)
  {
    FormatWidth(d.shipType, 8);
    DimensionLength(d);
    FormatWidth(d.positionFixType, 4);
    EtaLength(d);
    FormatWidth(d.draught, 8);
  }

  /** With text fields of 7, 20 and 20 characters the layout is never shorter
      than 428 bits (423 field bits and 5 spare bits), and it is exactly 428
      bits when every integer fits its width: format pads but never truncates. */
  lemma LayoutLength(d: StaticVoyageData, callSign: Bits, vesselName: Bits, destination: Bits)
    requires |callSign| == 42 && |vesselName| == 120 && |destination| == 120
    ensures |Layout(d, callSign, vesselName, destination)| >= 428
    ensures |Layout(d, callSign, vesselName, destination)| == 428 <==> Fits(d)
  {
    HeaderLength(d);
    ParticularsLength(d);
    FormatWidth(d.dte, 1);
    var h, p, f := |Header(d)|, |Particulars(d)|, |Format(d.dte, 1)|;
    assert |Layout(d, callSign, vesselName, destination)| == h + p + f + 287;
    assert h + p + f == 141 <==> h == 70 && p == 70 && f == 1;
  }

  /** build_bitstream: the type-5 layout, then ljust(424, '0'), which never
      applies to a layout of at least 428 bits. */
  function BuildBitstream(d: StaticVoyageData): (r: Result<Bits>)
    ensures r.Ok? <==>
      EncodeForAis(d.callSign, 7).Ok? && EncodeForAis(d.vesselName, 20).Ok? && EncodeForAis(d.destination, 20).Ok?
    ensures r.Err? ==> r.error == CharacterNotInAlphabet
    ensures r.Ok? ==> |r.value| >= 428 && (|r.value| == 428 <==> Fits(d))
    ensures r.Ok? ==> r.value == Layout(d, EncodeForAis(d.callSign, 7).value,
      EncodeForAis(d.vesselName, 20).value, EncodeForAis(d.destination, 20).value)
  {
    var callSign :- EncodeForAis(d.callSign, 7);
    var vesselName :- EncodeForAis(d.vesselName, 20);
    var destination :- EncodeForAis(d.destination, 20);
    var stream := Layout(d, callSign, vesselName, destination);
    LayoutLength(d, callSign, vesselName, destination);
    Ok(LeftJustify(stream, 424, false))
  }

  // ---- Armoring ----

  /** aiscraft's sixbit_to_ascii: the wire character of a six-bit code; the
      ValueError for any other integer. */
  function ArmorChar(v: int): (r: Result<char>)
    ensures r.Ok? <==> 0 <= v < 64
    ensures r.Err? ==> r.error == InvalidSixBitValue
    ensures r.Ok? ==> IsArmorChar(r.value)
    ensures r.Ok? ==> UnarmorChar(r.value) == Ok(v as nat)
  {
    if 0 <= v <= 39 then Ok((v + 48) as char)
    else if 40 <= v <= 63 then Ok((v + 56) as char)
    else Err(InvalidSixBitValue)
  }

  /** Every wire character is the armoring of the code it carries. */
  lemma ArmorOfUnarmor(c: char)
    requires IsArmorChar(c)
    ensures ArmorChar(UnarmorChar(c).value) == Ok(c)
  {
  }

  /** The wire characters of the first k six-bit chunks of a bitstream (the
      last chunk may be shorter and is then read as a smaller number). */
  function ArmorCodes(bitstream: Bits, k: nat): (s: string)
    ensures |s| == k
    ensures forall j :: 0 <= j < k ==> IsArmorChar(s[j])
    ensures forall j :: 0 <= j < k ==> UnarmorChar(s[j]) == Ok(Uint(Slice(bitstream, 6 * j, 6 * j + 6)))
  {
    if k == 0 then ""
    else
      ChunkBound(bitstream, k - 1);
      ArmorCodes(bitstream, k - 1) + [ArmorChar(Uint(Slice(bitstream, 6 * (k - 1), 6 * k))).value]
  }

  /** What to_sixbit_ascii computes: one wire character per started chunk. */
  function Armor(bitstream: Bits): (s: string)
    ensures |s| == CodeCount(|bitstream|)
    ensures forall j :: 0 <= j < |s| ==> IsArmorChar(s[j])
  {
    ArmorCodes(bitstream, CodeCount(|bitstream|))
  }

  /** to_sixbit_ascii. */
  method ToSixbitAscii(bitstream: Bits) returns (result: string)
    ensures result == Armor(bitstream)
  {
    result := "";
    var i := 0;
    ghost var k := 0;
    while i < |bitstream|
      invariant i == 6 * k && k <= CodeCount(|bitstream|)
      invariant k == 0 || 6 * (k - 1) < |bitstream|
      invariant result == ArmorCodes(bitstream, k)
      decreases |bitstream| - i
    {
      CodeCountBound(|bitstream|, k);
      var sixbitValue := Uint(Slice(bitstream, i, i + 6));
      ChunkBound(bitstream, k);
      var c := ArmorChar(sixbitValue);
      result := result + [c.value];
      i := i + 6;
      k := k + 1;
    }
    CodeCountExact(|bitstream|, k);
  }

  // ---- The NMEA 0183 checksum ----

  /** The XOR of the character codes of s. */
  function XorCodes(s: string): bv32
  {
    if |s| == 0 then 0 else XorCodes(s[..|s| - 1]) ^ (s[|s| - 1] as int as bv32)
  }

  /** The checksum of a concatenation combines the checksums of its parts. */
  lemma {:induction false} XorCodesAppend(a: string, b: string)
    ensures XorCodes(a + b) == XorCodes(a) ^ XorCodes(b)
    decreases |b|
  {
    if |b| == 0 {
      assert a + b == a;
    } else {
      var b', last := b[..|b| - 1], b[|b| - 1];
      assert (a + b)[..|a + b| - 1] == a + b';
      XorCodesAppend(a, b');
    }
  }

  /** Seven-bit characters have a seven-bit checksum. */
  lemma {:induction false} XorCodesAscii(s: string)
    requires forall i :: 0 <= i < |s| ==> s[i] as int < 128
    ensures XorCodes(s) < 128
  {
    if |s| > 0 {
      var front, last := s[..|s| - 1], s[|s| - 1] as int;
      assert forall i :: 0 <= i < |front| ==> front[i] == s[i];
      XorCodesAscii(front);
      assert last < 128;
      XorBelow128(XorCodes(front), last as bv32);
      assert XorCodes(s) == XorCodes(front) ^ (last as bv32);
    }
  }

  lemma XorBelow128(x: bv32, y: bv32)
    requires x < 128 && y < 128
    ensures x ^ y < 128
  {
  }

  /** What calculate_checksum computes: format(checksum, '02X'). */
  function Checksum(s: string): (c: string)
    ensures HexValue(c) == XorCodes(s) as nat
    ensures forall i :: 0 <= i < |c| ==> IsHexDigit(c[i])
    ensures (forall i :: 0 <= i < |s| ==> s[i] as int < 128) ==> |c| == 2
  {
    // Both branches give the same value; the test only decides whether the
    // seven-bit lemma applies and can be called for the two-digit ensures.
    if forall i :: 0 <= i < |s| ==> s[i] as int < 128 then
      XorCodesAscii(s);
      Hex2(XorCodes(s) as nat)
    else Hex2(XorCodes(s) as nat)
  }

  /** calculate_checksum. */
  method CalculateChecksum(sentence: string) returns (c: string)
    ensures c == Checksum(sentence)
  {
    var checksum: bv32 := 0;
    for i := 0 to |sentence|
      invariant checksum == XorCodes(sentence[..i])
    {
      assert sentence[..i + 1][..i] == sentence[..i];
      checksum := checksum ^ (sentence[i] as int as bv32);
    }
    assert sentence[..|sentence|] == sentence;
    return Hex2(checksum as nat);
  }

  // ---- Sentence framing ----

  /** math.ceil(len(payload) / 62): the number of sentences of at most 62
      payload characters. */
  function FragmentCount(length: nat): nat { (length + 61) / 62 }

  lemma FragmentCountBound(length: nat, i: nat)
    ensures 62 * i < length <==> i < FragmentCount(length)
  {
  }

  /** payload[62 i : 62 (i + 1)]. */
  function Fragment(payload: string, i: nat): (f: string)
    requires i < FragmentCount(|payload|)
    ensures 1 <= |f| <= 62
  {
    FragmentCountBound(|payload|, i);
    payload[62 * i..Min(62 * i + 62, |payload|)]
  }

  /** The fragments in order. */
  function Fragments(payload: string): (fs: seq<string>)
    ensures |fs| == FragmentCount(|payload|)
    ensures forall i :: 0 <= i < |fs| ==> fs[i] == Fragment(payload, i)
  {
    seq(FragmentCount(|payload|), i requires 0 <= i < FragmentCount(|payload|) => Fragment(payload, i))
  }

  /** The first k fragments cover the first 62 k characters of the payload. */
  lemma {:induction false} FragmentsPrefix(payload: string, k: nat)
    requires k <= FragmentCount(|payload|)
    ensures Concat(Fragments(payload)[..k]) == payload[..Min(62 * k, |payload|)]
    decreases k
  {
    var fs := Fragments(payload);
    if k == 0 {
      assert fs[..0] == [];
    } else {
      FragmentsPrefix(payload, k - 1);
      ConcatSnoc(fs, k);
      FragmentCountBound(|payload|, k - 1);
      PrefixJoin(payload, 62 * (k - 1), Min(62 * k, |payload|));
    }
  }

  lemma PrefixJoin(s: string, a: nat, b: nat)
    requires a <= b <= |s|
    ensures s[..a] + s[a..b] == s[..b]
  {
  }

  /** The fragments of a payload concatenate back to the payload. */
  lemma FragmentsConcat(payload: string)
    ensures Concat(Fragments(payload)) == payload
  {
    var fs := Fragments(payload);
    var n := FragmentCount(|payload|);
    FragmentsPrefix(payload, n);
    assert fs[..n] == fs;
    FragmentCountBound(|payload|, n);
  }

  /** The sequence id field: "9" for a multi-sentence message, empty otherwise. */
  function SeqNum(total: nat): string
  {
    if total > 1 then "9" else ""
  }

  /** The sentence body before the checksum:
      f"!AIVDM,{total},{number},{seq},A,{fragment},0". */
  function Frame(total: nat, number: nat, seqNum: string, fragment: string): (s: string)
    ensures |s| > 0 && s[0] == '!'
  {
    "!AIVDM," + Decimal(total) + "," + Decimal(number) + "," + seqNum + ",A," + fragment + ",0"
  }

  /** One complete sentence: the body, '*', and the checksum of the body
      without its leading '!'. */
  function NmeaSentence(total: nat, number: nat, seqNum: string, fragment: string): string
  {
    var body := Frame(total, number, seqNum, fragment);
    body + "*" + Checksum(body[1..])
  }

  /** What build_nmea returns for an armored payload: sentence i (from 1)
      carries fragment i of the payload. */
  function NmeaSentences(payload: string): (ss: seq<string>)
    ensures |ss| == FragmentCount(|payload|)
    ensures forall i :: 0 <= i < |ss| ==>
      ss[i] == NmeaSentence(FragmentCount(|payload|), i + 1, SeqNum(FragmentCount(|payload|)), Fragment(payload, i))
  {
    var n := FragmentCount(|payload|);
    seq(n, i requires 0 <= i < n => NmeaSentence(n, i + 1, SeqNum(n), Fragment(payload, i)))
  }

  /** The sentence for fragment k extends the first k sentences. */
  lemma NmeaSentencesNext(payload: string, k: nat, sentence: string)
    requires k < FragmentCount(|payload|)
    requires var n := FragmentCount(|payload|);
      var body := Frame(n, k + 1, SeqNum(n), Fragment(payload, k));
      sentence == body + "*" + Checksum(body[1..])
    ensures NmeaSentences(payload)[..k + 1] == NmeaSentences(payload)[..k] + [sentence]
  {
    var ss := NmeaSentences(payload);
    assert ss[k] == sentence;
    PrefixSnoc(ss, k);
  }

  /** build_nmea. */
  method BuildNmea(bitstream: Bits) returns (nmeaSentences: seq<string>)
    ensures nmeaSentences == NmeaSentences(Armor(bitstream))
  {
    var payload := ToSixbitAscii(bitstream);
    nmeaSentences := [];
    var totalFragments := FragmentCount(|payload|);
    var seqNum := "";
    if totalFragments > 1 {
      seqNum := "9";
    }
    ghost var expected := NmeaSentences(payload);
    for fragmentNumber := 0 to totalFragments
      invariant nmeaSentences == expected[..fragmentNumber]
    {
      var fragmentPayload := Fragment(payload, fragmentNumber);
      var sentence := Frame(totalFragments, fragmentNumber + 1, seqNum, fragmentPayload);
      var checksum := CalculateChecksum(sentence[1..]);
      NmeaSentencesNext(payload, fragmentNumber, sentence + "*" + checksum);
      nmeaSentences := nmeaSentences + [sentence + "*" + checksum];
    }
    assert expected[..totalFragments] == expected;
  }
}
