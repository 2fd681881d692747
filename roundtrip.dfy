/** How the builder and the decoder fit together: armoring and unarmoring
    are inverse, encoded text reads back as the upper-cased text, a type-5
    bitstream parses back to the fields it was built from, and the sentences
    build_nmea frames pass through the reassembly loop to the same payload. */
module RoundTrip {
  import opened Wrappers
  import opened Bits
  import opened Strings
  import opened SixBitAlphabet
  import opened AisDump
  import opened AisMessages
  import opened AisCraft
  import opened Reassembly

  // ---- Armoring ----

  /** A value written back into as many bits as it was read from, and
      widened to w bits, gains leading zeros only. */
  lemma FormatOfBits(t: Bits, w: nat)
    requires 1 <= |t| <= w
    ensures Format(Uint(t), w) == Zeros(w - |t|) + t
  {
    var v := Uint(t);
    Pow2Monotonic(|t|, w);
    FormatWidth(v, w);
    UintLeadingZeros(w - |t|, t);
    UintFirstBits(Format(v, w), Zeros(w - |t|) + t);
  }

  /** The wire characters of the first k chunks depend only on the first 6 k bits. */
  lemma {:induction false} ArmorCodesPrefix(b: Bits, b': Bits, k: nat)
    requires 6 * k <= |b| && 6 * k <= |b'| && b[..6 * k] == b'[..6 * k]
    ensures ArmorCodes(b, k) == ArmorCodes(b', k)
    decreases k
  {
    if k > 0 {
      PrefixSlices(b, b', 6 * (k - 1), 6 * k);
      ArmorCodesPrefix(b, b', k - 1);
    }
  }

  /** Streams that agree up to c agree up to a and from a to c. */
  lemma PrefixSlices(b: Bits, b': Bits, a: nat, c: nat)
    requires a <= c <= |b| && c <= |b'| && b[..c] == b'[..c]
    ensures b[..a] == b'[..a] && Slice(b, a, c) == Slice(b', a, c)
  {
    assert b[..a] == b[..c][..a] && b'[..a] == b'[..c][..a];
    assert b[a..c] == b[..c][a..] && b'[a..c] == b'[..c][a..];
  }

  /** Unarmoring one more wire character appends its six bits. */
  lemma UnarmorSnoc(s: string, c: char)
    requires Unarmor(s).Ok? && IsArmorChar(c)
    ensures Unarmor(s + [c]) == Ok(Unarmor(s).value + Format(UnarmorChar(c).value, 6))
  {
    assert (s + [c])[..|s|] == s;
  }

  /** The wire characters of k chunks: those of k - 1 chunks and one more. */
  lemma ArmorCodesLast(b: Bits, k: nat)
    requires k > 0
    ensures ArmorCodes(b, k) == ArmorCodes(b, k - 1) + [ArmorCodes(b, k)[k - 1]]
    ensures UnarmorChar(ArmorCodes(b, k)[k - 1]) == Ok(Uint(Slice(b, 6 * (k - 1), 6 * k)))
  {
  }

  /** A whole chunk read and written back in six bits is unchanged. */
  lemma PrefixChunk(b: Bits, k: nat)
    requires 1 <= k && 6 * k <= |b|
    ensures b[..6 * (k - 1)] + Format(Uint(b[6 * (k - 1)..6 * k]), 6) == b[..6 * k]
  {
    FormatUint(b[6 * (k - 1)..6 * k]);
  }

  /** Unarmoring the wire characters of k whole chunks gives back their bits. */
  lemma {:induction false} UnarmorArmorCodes(b: Bits, k: nat)
    requires 6 * k <= |b|
    ensures Unarmor(ArmorCodes(b, k)) == Ok(b[..6 * k])
    decreases k
  {
    if k == 0 {
      assert ArmorCodes(b, 0) == [];
    } else {
      UnarmorArmorCodes(b, k - 1);
      ArmorCodesLast(b, k);
      var c := ArmorCodes(b, k)[k - 1];
      assert UnarmorChar(c) == Ok(Uint(b[6 * (k - 1)..6 * k]));
      UnarmorSnoc(ArmorCodes(b, k - 1), c);
      PrefixChunk(b, k);
    }
  }

  /** A length of whole bits in full six-bit groups, then a short group
      that pad zeros fill up. */
  predicate GroupsOf(length: nat, whole: nat, pad: nat)
  {
    CodeCount(length) >= 1 && whole == 6 * (CodeCount(length) - 1) && whole < length < whole + 6 &&
    pad == whole + 6 - length
  }

  /** A length splits into whole six-bit groups and a short last one. */
  lemma GroupSplit(length: nat)
    ensures length % 6 == 0 ==> 6 * CodeCount(length) == length
    ensures length % 6 != 0 ==> GroupsOf(length, length - length % 6, 6 - length % 6)
  {
  }

  /** Six bits read from a chunk that may be short are the code of the
      k-th wire character. */
  lemma ArmorCodesLastValue(b: Bits, k: nat, start: nat, end: nat)
    requires k >= 1 && start == 6 * (k - 1) && end == start + 6
    ensures ArmorCodes(b, k) == ArmorCodes(b, k - 1) + [ArmorCodes(b, k)[k - 1]]
    ensures UnarmorChar(ArmorCodes(b, k)[k - 1]) == Ok(Uint(Slice(b, start, end)))
  {
    ArmorCodesLast(b, k);
  }

  /** Unarmoring k chunks of which the last, bits start to end, may be
      short: the whole ones come back as they were and the last one widened
      to six bits. */
  lemma UnarmorArmorCodesLast(b: Bits, k: nat, start: nat, end: nat)
    requires k >= 1 && start == 6 * (k - 1) && end == start + 6 && start <= |b|
    ensures Unarmor(ArmorCodes(b, k)) == Ok(b[..start] + Format(Uint(Slice(b, start, end)), 6))
  {
    UnarmorArmorCodes(b, k - 1);
    ArmorCodesLastValue(b, k, start, end);
    UnarmorSnoc(ArmorCodes(b, k - 1), ArmorCodes(b, k)[k - 1]);
  }

  /** A short last group, read and written back in six bits, gains pad
      leading zeros. */
  lemma WidenedTail(b: Bits, whole: nat, pad: nat)
    requires whole < |b| < whole + 6 && pad == whole + 6 - |b|
    ensures b[..whole] + Format(Uint(Slice(b, whole, whole + 6)), 6) == b[..whole] + Zeros(pad) + b[whole..]
  {
    var tail := b[whole..];
    assert Slice(b, whole, whole + 6) == tail;
    FormatOfBits(tail, 6);
    var z := Zeros(6 - |tail|);
    assert b[..whole] + (z + tail) == b[..whole] + z + tail;
  }

  lemma UnarmorArmorWhole(b: Bits)
    requires |b| % 6 == 0
    ensures Unarmor(Armor(b)) == Ok(b)
  {
    GroupSplit(|b|);
    UnarmorArmorCodes(b, CodeCount(|b|));
    assert b[..|b|] == b;
  }

  lemma UnarmorArmorShort(b: Bits, whole: nat, pad: nat)
    requires GroupsOf(|b|, whole, pad)
    ensures Unarmor(Armor(b)) == Ok(b[..whole] + Zeros(pad) + b[whole..])
  {
    UnarmorArmorCodesLast(b, CodeCount(|b|), whole, whole + 6);
    WidenedTail(b, whole, pad);
  }

  /** The decoder gives back what the encoder armored: a stream of whole
      six-bit groups exactly, and otherwise the stream with its last, short
      group widened by leading zeros to six bits. */
  lemma UnarmorArmor(b: Bits)
    ensures |b| % 6 == 0 ==> Unarmor(Armor(b)) == Ok(b)
    ensures |b| % 6 != 0 ==>
      Unarmor(Armor(b)) == Ok(b[..|b| - |b| % 6] + Zeros(6 - |b| % 6) + b[|b| - |b| % 6..])
  {
    if |b| % 6 == 0 {
      UnarmorArmorWhole(b);
    } else {
      GroupSplit(|b|);
      UnarmorArmorShort(b, |b| - |b| % 6, 6 - |b| % 6);
    }
  }

  /** Distinct wire characters carry distinct codes. */
  lemma UnarmorCharInjective(c: char, c': char)
    requires IsArmorChar(c) && IsArmorChar(c') && UnarmorChar(c) == UnarmorChar(c')
    ensures c == c'
  {
  }

  lemma AppendParts(x: Bits, y: Bits)
    ensures (x + y)[..|x|] == x
    ensures Slice(x + y, |x|, |x| + |y|) == y
  {
  }

  lemma CodeCountOfGroups(m: nat)
    ensures CodeCount(6 * m) == m && CodeCount(6 * m + 6) == m + 1
  {
  }

  /** The wire character of a six-bit group appended after m whole groups. */
  lemma LastGroupChar(fs: Bits, m: nat, v: nat)
    requires |fs| == 6 * m && v < 64
    ensures ArmorCodes(fs + Format(v, 6), m + 1)[m] == ArmorChar(v).value
  {
    SixBitWidth(v);
    AppendParts(fs, Format(v, 6));
    ArmorCodesLastValue(fs + Format(v, 6), m + 1, 6 * m, 6 * m + 6);
    UnarmorCharInjective(ArmorCodes(fs + Format(v, 6), m + 1)[m], ArmorChar(v).value);
  }

  /** The wire characters of m whole groups and one more. */
  lemma ArmorCodesAppendGroup(fs: Bits, m: nat, v: nat)
    requires |fs| == 6 * m && v < 64
    ensures ArmorCodes(fs + Format(v, 6), m + 1) == ArmorCodes(fs, m) + [ArmorChar(v).value]
  {
    var bs := fs + Format(v, 6);
    SixBitWidth(v);
    AppendParts(fs, Format(v, 6));
    assert fs[..6 * m] == fs;
    ArmorCodesPrefix(bs, fs, m);
    ArmorCodesLast(bs, m + 1);
    LastGroupChar(fs, m, v);
  }

  /** Armoring a stream of whole groups with one more six-bit group appends
      that group's wire character. */
  lemma ArmorAppendGroup(fs: Bits, m: nat, v: nat)
    requires |fs| == 6 * m && v < 64
    ensures Armor(fs + Format(v, 6)) == Armor(fs) + [ArmorChar(v).value]
  {
    SixBitWidth(v);
    CodeCountOfGroups(m);
    ArmorCodesAppendGroup(fs, m, v);
  }

  /** The encoder gives back a payload the decoder accepted. */
  lemma {:induction false} ArmorUnarmor(payload: string)
    requires Unarmor(payload).Ok?
    ensures Armor(Unarmor(payload).value) == payload
    decreases |payload|
  {
    var n := |payload|;
    if n == 0 {
      assert ArmorCodes([], 0) == [];
    } else {
      var front := payload[..n - 1];
      UnarmorLast(payload);
      var v := UnarmorChar(payload[n - 1]).value;
      ArmorUnarmor(front);
      ArmorAppendGroup(Unarmor(front).value, n - 1, v);
      ArmorOfUnarmor(payload[n - 1]);
      assert front + [payload[n - 1]] == payload;
    }
  }

  /** decode_armored_ascii places character j's code in bits 6 j to 6 j + 6. */
  lemma UnarmorChunks(payload: string)
    requires Unarmor(payload).Ok?
    ensures forall j :: 0 <= j < |payload| ==>
      UnarmorChar(payload[j]) == Ok(Uint(Unarmor(payload).value[6 * j..6 * j + 6]))
  {
    var bs := Unarmor(payload).value;
    ArmorUnarmor(payload);
    forall j | 0 <= j < |payload|
      ensures UnarmorChar(payload[j]) == Ok(Uint(bs[6 * j..6 * j + 6]))
    {
      assert Armor(bs)[j] == payload[j];
      assert Slice(bs, 6 * j, 6 * j + 6) == bs[6 * j..6 * j + 6];
    }
  }

  // ---- Six-bit text ----

  /** The six bits of the last character come last. */
  lemma EncodeCharsLast(s: string)
    requires EncodeChars(s).Ok? && |s| > 0
    ensures EncodeChars(s[..|s| - 1]).Ok? && Code(s[|s| - 1]).Ok?
    ensures EncodeChars(s).value == EncodeChars(s[..|s| - 1]).value + Format(Code(s[|s| - 1]).value, 6)
  {
  }

  /** Two adjacent pieces of the bits from a to c, split at m. */
  lemma Segments(bs: Bits, a: nat, m: nat, c: nat, x: Bits, y: Bits)
    requires m == a + |x| && c == m + |y| && c <= |bs| && bs[a..c] == x + y
    ensures bs[a..m] == x && bs[m..c] == y
  {
    assert bs[a..m] == bs[a..c][..|x|];
    assert bs[m..c] == bs[a..c][|x|..];
  }

  lemma SnocOfPrefix(p: string)
    requires |p| > 0
    ensures p[..|p| - 1] + [p[|p| - 1]] == p
  {
  }

  /** The six bits at a hold the code v. */
  lemma GroupValue(bs: Bits, a: nat, v: nat)
    requires v < 64 && a + 6 <= |bs| && bs[a..a + 6] == Format(v, 6)
    ensures Field(bs, a, a + 6) == Ok(v)
  {
  }

  /** The code of a text character names it in the alphabet. */
  lemma SymbolOfTextChar(c: char)
    requires IsTextChar(c)
    ensures Symbol(Code(c).value) == c
  {
    AlphabetShape();
    SymbolOfCode(c);
  }

  /** One more encoded character after k read ones is read back. */
  lemma RawTextStep(bs: Bits, start: nat, k: nat, at: nat, front: string, c: char)
    requires at == start + 6 * k && at + 6 <= |bs| && IsTextChar(c)
    requires RawText(bs, start, k) == Ok(front) && bs[at..at + 6] == Format(Code(c).value, 6)
    ensures RawText(bs, start, k + 1) == Ok(front + [c])
  {
    GroupValue(bs, at, Code(c).value);
    RawTextNext(bs, start, k, at, front, Code(c).value);
    SymbolOfTextChar(c);
  }

  /** Text encoded into bits start to start + 6 |p| is read back character
      for character. */
  lemma {:induction false} RawTextOfEncoded(bs: Bits, start: nat, p: string)
    requires EncodeChars(p).Ok? && start + 6 * |p| <= |bs|
    requires bs[start..start + 6 * |p|] == EncodeChars(p).value
    ensures RawText(bs, start, |p|) == Ok(p)
    decreases |p|
  {
    var n := |p|;
    if n == 0 {
      assert RawText(bs, start, 0) == Ok([]);
    } else {
      var front := p[..n - 1];
      EncodeCharsLast(p);
      var code := Code(p[n - 1]).value;
      SixBitWidth(code);
      var at := start + 6 * (n - 1);
      Segments(bs, start, at, at + 6, EncodeChars(front).value, Format(code, 6));
      RawTextOfEncoded(bs, start, front);
      RawTextStep(bs, start, n - 1, at, front, p[n - 1]);
      SnocOfPrefix(p);
    }
  }

  /** What the decoder shows for a text field of |p| characters: the text
      without surrounding spaces and without trailing '@' padding. */
  function Shown(p: string): string
  {
    TrimRight(Strip(p), '@')
  }

  /** A text field written by encode_for_ais reads back as the padded,
      upper-cased text, stripped as the decoder strips it. */
  lemma TextFieldOfEncoded(bs: Bits, start: nat, p: string)
    requires EncodeChars(p).Ok? && start + 6 * |p| <= |bs|
    requires bs[start..start + 6 * |p|] == EncodeChars(p).value
    ensures TextField(bs, start, 6 * |p|) == Ok(Shown(p))
  {
    CodeCountOfGroups(|p|);
    RawTextOfEncoded(bs, start, p);
  }

  /** Text the decoder displays as it is: upper case within the alphabet, no
      longer than the field, and no space or '@' at the ends that the strip
      would remove. */
  predicate IsShownText(text: string, length: nat)
  {
    |text| <= length && (forall i :: 0 <= i < |text| ==> IsTextChar(text[i])) &&
    (|text| == 0 || (text[0] != ' ' && text[|text| - 1] != ' ' && text[|text| - 1] != '@'))
  }

  /** Padding such text upper-cases nothing and appends spaces. */
  lemma PaddedShownText(text: string, length: nat)
    requires IsShownText(text, length)
    ensures forall i :: 0 <= i < length ==> IsTextChar(Padded(text, length)[i])
    ensures Padded(text, length)[..|text|] == text
    ensures forall i :: |text| <= i < length ==> Padded(text, length)[i] == ' '
  {
  }

  /** Text followed by spaces only strips back to the text, when the text
      has no space at either end. */
  lemma StripTrailingSpaces(p: string, k: nat)
    requires k <= |p| && (forall i :: k <= i < |p| ==> p[i] == ' ')
    requires k == 0 || (p[0] != ' ' && p[k - 1] != ' ')
    ensures Strip(p) == p[..k]
  {
    var left := TrimLeft(p, ' ');
    if k == 0 {
      assert left == [];
    } else {
      assert left == p;
    }
  }

  /** Such text survives encoding and decoding unchanged. */
  lemma ShownOfPadded(text: string, length: nat)
    requires IsShownText(text, length)
    ensures EncodeForAis(text, length).Ok?
    ensures Shown(Padded(text, length)) == text
  {
    var p := Padded(text, length);
    PaddedShownText(text, length);
    assert Strip(p) == text by {
      StripTrailingSpaces(p, |text|);
    }
    TrimRightNoOp(text, '@');
  }

  lemma TrimRightNoOp(s: string, c: char)
    requires |s| == 0 || s[|s| - 1] != c
    ensures TrimRight(s, c) == s
  {
  }

  // ---- The type-5 message ----

  /** The message the decoder makes of a type-5 bitstream built from d: every
      integer field back as it was, the length and beam as sums of the
      dimensions, and each text field as the decoder shows the padded text. */
  function StaticVoyageOf(d: StaticVoyageData): Message
  {
    VoyageReport(d, Shown(Padded(d.callSign, 7)), Shown(Padded(d.vesselName, 20)), Shown(Padded(d.destination, 20)))
  }

  /** The type-5 report of the integer fields of d and the given text fields. */
  function VoyageReport(d: StaticVoyageData, callSign: string, vesselName: string, destination: string): Message
  {
    StaticVoyageReport(5, d.repeatIndicator, d.mmsi, d.aisVersion, d.imoNumber, callSign, vesselName, d.shipType,
      Dimensions(d.dimensionToBow, d.dimensionToStern, d.dimensionToPort, d.dimensionToStarboard),
      d.dimensionToBow + d.dimensionToStern, d.dimensionToPort + d.dimensionToStarboard,
      d.positionFixType, Eta(d.etaMonth, d.etaDay, d.etaHour, d.etaMinute), d.draught, destination)
  }

  /** The w bits at a hold the value x. */
  lemma ValueAt(bs: Bits, a: nat, c: nat, x: nat, w: nat)
    requires w >= 1 && c == a + w && c <= |bs| && x < Pow2(w) && bs[a..c] == Format(x, w)
    ensures Uint(bs[a..c]) == x && Field(bs, a, c) == Ok(x)
  {
  }

  /** The pieces of the 428-bit layout. */
  lemma LayoutPieces(d: StaticVoyageData, callSign: Bits, vesselName: Bits, destination: Bits, bs: Bits)
    requires |callSign| == 42 && |vesselName| == 120 && |destination| == 120 && Fits(d)
    requires |bs| >= 428 && bs[..428] == Layout(d, callSign, vesselName, destination)
    ensures bs[0..70] == Header(d) && bs[70..112] == callSign && bs[112..232] == vesselName
    ensures bs[232..302] == Particulars(d) && bs[302..422] == destination
    ensures bs[423..428] == Zeros(5)
  {
    HeaderLength(d);
    ParticularsLength(d);
    FormatWidth(d.dte, 1);
    var l := Layout(d, callSign, vesselName, destination);
    assert bs[0..428] == l;
    var x1 := Header(d) + callSign;
    var x2 := x1 + vesselName;
    var x3 := x2 + Particulars(d);
    var x4 := x3 + destination;
    var x5 := x4 + Format(d.dte, 1);
    Segments(bs, 0, 423, 428, x5, Zeros(5));
    Segments(bs, 0, 422, 423, x4, Format(d.dte, 1));
    Segments(bs, 0, 302, 422, x3, destination);
    Segments(bs, 0, 232, 302, x2, Particulars(d));
    Segments(bs, 0, 112, 232, x1, vesselName);
    Segments(bs, 0, 70, 112, Header(d), callSign);
  }

  /** The fields of the first 70 bits read back. */
  lemma HeaderFields(d: StaticVoyageData, bs: Bits)
    requires HeaderFits(d) && |bs| >= 70 && bs[0..70] == Header(d)
    ensures Field(bs, 0, 6) == Ok(5) && Field(bs, 6, 8) == Ok(d.repeatIndicator)
    ensures Field(bs, 8, 38) == Ok(d.mmsi)
    ensures Uint(bs[38..40]) == d.aisVersion && Uint(bs[40..70]) == d.imoNumber
  {
    Pow2Values();
    HeaderLength(d);
    FormatWidth(5, 6);
    FormatWidth(d.repeatIndicator, 2);
    FormatWidth(d.mmsi, 30);
    FormatWidth(d.aisVersion, 2);
    FormatWidth(d.imoNumber, 30);
    var x1 := Format(5, 6) + Format(d.repeatIndicator, 2);
    var x2 := x1 + Format(d.mmsi, 30);
    var x3 := x2 + Format(d.aisVersion, 2);
    Segments(bs, 0, 40, 70, x3, Format(d.imoNumber, 30));
    Segments(bs, 0, 38, 40, x2, Format(d.aisVersion, 2));
    Segments(bs, 0, 8, 38, x1, Format(d.mmsi, 30));
    Segments(bs, 0, 6, 8, Format(5, 6), Format(d.repeatIndicator, 2));
    ValueAt(bs, 0, 6, 5, 6);
    ValueAt(bs, 6, 8, d.repeatIndicator, 2);
    ValueAt(bs, 8, 38, d.mmsi, 30);
    ValueAt(bs, 38, 40, d.aisVersion, 2);
    ValueAt(bs, 40, 70, d.imoNumber, 30);
  }

  /** The four dimensions read back from bits 240-269. */
  lemma DimensionFields(d: StaticVoyageData, bs: Bits)
    requires DimensionsFit(d) && |bs| >= 270 && bs[240..270] == DimensionBits(d)
    ensures Uint(bs[240..249]) == d.dimensionToBow && Uint(bs[249..258]) == d.dimensionToStern
    ensures Uint(bs[258..264]) == d.dimensionToPort && Uint(bs[264..270]) == d.dimensionToStarboard
  {
    FormatWidth(d.dimensionToBow, 9);
    FormatWidth(d.dimensionToStern, 9);
    FormatWidth(d.dimensionToPort, 6);
    FormatWidth(d.dimensionToStarboard, 6);
    var x1 := Format(d.dimensionToBow, 9) + Format(d.dimensionToStern, 9);
    var x2 := x1 + Format(d.dimensionToPort, 6);
    Segments(bs, 240, 264, 270, x2, Format(d.dimensionToStarboard, 6));
    Segments(bs, 240, 258, 264, x1, Format(d.dimensionToPort, 6));
    Segments(bs, 240, 249, 258, Format(d.dimensionToBow, 9), Format(d.dimensionToStern, 9));
    ValueAt(bs, 240, 249, d.dimensionToBow, 9);
    ValueAt(bs, 249, 258, d.dimensionToStern, 9);
    ValueAt(bs, 258, 264, d.dimensionToPort, 6);
    ValueAt(bs, 264, 270, d.dimensionToStarboard, 6);
  }

  /** Month, day, hour and minute read back from bits 274-293. */
  lemma EtaFields(d: StaticVoyageData, bs: Bits)
    requires EtaFits(d) && |bs| >= 294 && bs[274..294] == EtaBits(d)
    ensures Uint(bs[274..278]) == d.etaMonth && Uint(bs[278..283]) == d.etaDay
    ensures Uint(bs[283..288]) == d.etaHour && Uint(bs[288..294]) == d.etaMinute
  {
    FormatWidth(d.etaMonth, 4);
    FormatWidth(d.etaDay, 5);
    FormatWidth(d.etaHour, 5);
    FormatWidth(d.etaMinute, 6);
    var x1 := Format(d.etaMonth, 4) + Format(d.etaDay, 5);
    var x2 := x1 + Format(d.etaHour, 5);
    Segments(bs, 274, 288, 294, x2, Format(d.etaMinute, 6));
    Segments(bs, 274, 283, 288, x1, Format(d.etaHour, 5));
    Segments(bs, 274, 278, 283, Format(d.etaMonth, 4), Format(d.etaDay, 5));
    ValueAt(bs, 274, 278, d.etaMonth, 4);
    ValueAt(bs, 278, 283, d.etaDay, 5);
    ValueAt(bs, 283, 288, d.etaHour, 5);
    ValueAt(bs, 288, 294, d.etaMinute, 6);
  }

  /** Bits 232-301 as build_bitstream writes them read back as the ship
      type, dimensions, fix type, ETA and draught. */
  lemma ParticularsRoundTrip(d: StaticVoyageData, bs: Bits)
    requires ParticularsFit(d) && |bs| >= 302 && bs[232..302] == Particulars(d)
    ensures ReadVoyageParticulars(bs) == Ok(VoyageParticulars(d.shipType,
      Dimensions(d.dimensionToBow, d.dimensionToStern, d.dimensionToPort, d.dimensionToStarboard),
      d.positionFixType, Eta(d.etaMonth, d.etaDay, d.etaHour, d.etaMinute), d.draught))
  {
    FormatWidth(d.shipType, 8);
    DimensionLength(d);
    FormatWidth(d.positionFixType, 4);
    EtaLength(d);
    FormatWidth(d.draught, 8);
    var x1 := Format(d.shipType, 8) + DimensionBits(d);
    var x2 := x1 + Format(d.positionFixType, 4);
    var x3 := x2 + EtaBits(d);
    Segments(bs, 232, 294, 302, x3, Format(d.draught, 8));
    Segments(bs, 232, 274, 294, x2, EtaBits(d));
    Segments(bs, 232, 270, 274, x1, Format(d.positionFixType, 4));
    Segments(bs, 232, 240, 270, Format(d.shipType, 8), DimensionBits(d));
    ValueAt(bs, 232, 240, d.shipType, 8);
    DimensionFields(d, bs);
    ValueAt(bs, 270, 274, d.positionFixType, 4);
    EtaFields(d, bs);
    ValueAt(bs, 294, 302, d.draught, 8);
  }

  /** The AIS version, IMO number, call sign and vessel name read back; the
      text fields as the decoder shows the padded text. */
  lemma IdentityRoundTrip(d: StaticVoyageData, bs: Bits)
    requires HeaderFits(d) && |bs| >= 232 && bs[0..70] == Header(d)
    requires EncodeForAis(d.callSign, 7).Ok? && bs[70..112] == EncodeForAis(d.callSign, 7).value
    requires EncodeForAis(d.vesselName, 20).Ok? && bs[112..232] == EncodeForAis(d.vesselName, 20).value
    ensures ReadVoyageIdentity(bs) == Ok(VoyageIdentity(d.aisVersion, d.imoNumber,
      Shown(Padded(d.callSign, 7)), Shown(Padded(d.vesselName, 20))))
  {
    HeaderFields(d, bs);
    TextFieldOfEncoded(bs, 70, Padded(d.callSign, 7));
    TextFieldOfEncoded(bs, 112, Padded(d.vesselName, 20));
  }

  /** parse_static_voyage_report undoes build_bitstream: a stream whose first
      428 bits are the built ones parses to the message with every integer
      field as given and each text field as the decoder shows it. */
  lemma StaticVoyageRoundTrip(d: StaticVoyageData, bs: Bits)
    requires BuildBitstream(d).Ok? && Fits(d)
    requires |bs| >= 428 && bs[..428] == BuildBitstream(d).value
    ensures ParseStaticVoyageReport(bs) == Ok(StaticVoyageOf(d))
  {
    var callSign := EncodeForAis(d.callSign, 7).value;
    var vesselName := EncodeForAis(d.vesselName, 20).value;
    var destination := EncodeForAis(d.destination, 20).value;
    LayoutPieces(d, callSign, vesselName, destination, bs);
    HeaderFields(d, bs);
    IdentityRoundTrip(d, bs);
    ParticularsRoundTrip(d, bs);
    TextFieldOfEncoded(bs, 302, Padded(d.destination, 20));
    ReadPieces(bs, d.repeatIndicator, d.mmsi,
      VoyageIdentity(d.aisVersion, d.imoNumber, Shown(Padded(d.callSign, 7)), Shown(Padded(d.vesselName, 20))),
      VoyageParticulars(d.shipType,
        Dimensions(d.dimensionToBow, d.dimensionToStern, d.dimensionToPort, d.dimensionToStarboard),
        d.positionFixType, Eta(d.etaMonth, d.etaDay, d.etaHour, d.etaMinute), d.draught),
      Shown(Padded(d.destination, 20)));
    ReportOfFields(ParseStaticVoyageReport(bs).value, d,
      Shown(Padded(d.callSign, 7)), Shown(Padded(d.vesselName, 20)), Shown(Padded(d.destination, 20)));
  }

  /** The report assembled from its parts once each part reads back. */
  lemma ReadPieces(bs: Bits, repeatIndicator: nat, mmsi: nat, identity: VoyageIdentity,
    particulars: VoyageParticulars, destination: string)
    requires Field(bs, 0, 6) == Ok(5) && Field(bs, 6, 8) == Ok(repeatIndicator) && Field(bs, 8, 38) == Ok(mmsi)
    requires ReadVoyageIdentity(bs) == Ok(identity) && ReadVoyageParticulars(bs) == Ok(particulars)
    requires TextField(bs, 302, 120) == Ok(destination)
    ensures ParseStaticVoyageReport(bs).Ok?
    ensures var m := ParseStaticVoyageReport(bs).value;
      m.messageType == 5 && m.repeatIndicator == repeatIndicator && m.mmsi == mmsi &&
      m.aisVersion == identity.aisVersion && m.imoNumber == identity.imoNumber &&
      m.callSign == identity.callSign && m.vesselName == identity.vesselName &&
      m.shipType == particulars.shipType && m.dimensions == particulars.dimensions &&
      m.fixType == particulars.fixType && m.eta == particulars.eta && m.draught == particulars.draught &&
      m.destination == destination
  {
  }

  /** A report that agrees with VoyageReport(d, ...) field by field is that message. */
  lemma ReportOfFields(m: Message, d: StaticVoyageData, callSign: string, vesselName: string, destination: string)
    requires m.StaticVoyageReport? && m.messageType == 5 && m.repeatIndicator == d.repeatIndicator
    requires m.mmsi == d.mmsi && m.aisVersion == d.aisVersion && m.imoNumber == d.imoNumber
    requires m.callSign == callSign && m.vesselName == vesselName
    requires m.shipType == d.shipType && m.fixType == d.positionFixType && m.draught == d.draught
    requires m.dimensions == Dimensions(d.dimensionToBow, d.dimensionToStern, d.dimensionToPort, d.dimensionToStarboard)
    requires m.vesselLength == m.dimensions.toBow + m.dimensions.toStern
    requires m.vesselBeam == m.dimensions.toPort + m.dimensions.toStarboard
    requires m.eta == Eta(d.etaMonth, d.etaDay, d.etaHour, d.etaMinute)
    requires m.destination == destination
    ensures m == VoyageReport(d, callSign, vesselName, destination)
  {
  }

  // ---- The sentences build_nmea writes, read back by main ----

  lemma DigitsHaveNoComma(s: string)
    requires forall i :: 0 <= i < |s| ==> IsHexDigit(s[i])
    ensures ',' !in s
  {
    assert forall i :: 0 <= i < |s| ==> s[i] != ',';
  }

  /** Seven comma-free fields joined by commas split back into those fields. */
  lemma SplitFields(p0: string, p1: string, p2: string, p3: string, p4: string, p5: string, p6: string)
    requires ',' !in p0 && ',' !in p1 && ',' !in p2 && ',' !in p3
    requires ',' !in p4 && ',' !in p5 && ',' !in p6
    ensures Split(p0 + [','] + p1 + [','] + p2 + [','] + p3 + [','] + p4 + [','] + p5 + [','] + p6, ',')
      == [p0, p1, p2, p3, p4, p5, p6]
  {
    var a1 := p0 + [','] + p1;
    var a2 := a1 + [','] + p2;
    var a3 := a2 + [','] + p3;
    var a4 := a3 + [','] + p4;
    var a5 := a4 + [','] + p5;
    SplitNoSeparator(p0, ',');
    SplitAtLastSeparator(p0, ',', p1);
    SplitAtLastSeparator(a1, ',', p2);
    SplitAtLastSeparator(a2, ',', p3);
    SplitAtLastSeparator(a3, ',', p4);
    SplitAtLastSeparator(a4, ',', p5);
    SplitAtLastSeparator(a5, ',', p6);
  }

  lemma CommaAComma(x: string)
    ensures x + ",A," == x + [','] + "A" + [',']
  {
  }

  lemma CommaZeroStar(x: string, cs: string)
    ensures x + ",0" + "*" + cs == x + [','] + ("0*" + cs)
  {
  }

  /** A sentence as its seven comma-separated fields. */
  lemma SentenceFields(total: nat, number: nat, seqNum: string, fragment: string)
    ensures var body := Frame(total, number, seqNum, fragment);
      NmeaSentence(total, number, seqNum, fragment) ==
        "!AIVDM" + [','] + Decimal(total) + [','] + Decimal(number) + [','] + seqNum + [','] +
        "A" + [','] + fragment + [','] + ("0*" + Checksum(body[1..]))
  {
    var body := Frame(total, number, seqNum, fragment);
    var x := "!AIVDM," + Decimal(total) + "," + Decimal(number) + "," + seqNum;
    assert "!AIVDM," == "!AIVDM" + [','];
    CommaAComma(x);
    CommaZeroStar(x + ",A," + fragment, Checksum(body[1..]));
  }

  /** main reads back the count, number, sequence id and fragment of every
      sentence build_nmea writes. */
  lemma ParseOfNmeaSentence(total: nat, number: nat, fragment: string)
    requires ',' !in fragment
    ensures ParseSentence(NmeaSentence(total, number, SeqNum(total), fragment))
      == Some(Sentence(total, number, if total > 1 then Some(9) else None, fragment))
  {
    var body := Frame(total, number, SeqNum(total), fragment);
    var cs := Checksum(body[1..]);
    SentenceFields(total, number, SeqNum(total), fragment);
    DigitsHaveNoComma(Decimal(total));
    DigitsHaveNoComma(Decimal(number));
    DigitsHaveNoComma(cs);
    assert ',' !in "0*" + cs;
    assert ',' !in SeqNum(total);
    SplitFields("!AIVDM", Decimal(total), Decimal(number), SeqNum(total), "A", fragment, "0*" + cs);
    ParseDecimalOfDecimal(total);
    ParseDecimalOfDecimal(number);
    assert ParseDecimal("9") == Some(9);
  }

  /** ParsedPrefix of lines that all parse is all their sentences. */
  lemma {:induction false} ParsedAll(lines: seq<string>, ss: seq<Sentence>)
    requires |lines| == |ss| && forall i :: 0 <= i < |lines| ==> ParseSentence(lines[i]) == Some(ss[i])
    ensures ParsedPrefix(lines) == ss
    decreases |lines|
  {
    if |lines| > 0 {
      ParsedAll(lines[1..], ss[1..]);
      assert [ss[0]] + ss[1..] == ss;
    }
  }

  lemma FragmentHasNoComma(payload: string, i: nat)
    requires ',' !in payload && i < FragmentCount(|payload|)
    ensures ',' !in Fragment(payload, i)
  {
    FragmentCountBound(|payload|, i);
  }

  lemma ParseOfLine(payload: string, i: nat)
    requires ',' !in payload && i < FragmentCount(|payload|)
    ensures var n := FragmentCount(|payload|);
      ParseSentence(NmeaSentences(payload)[i]) ==
        Some(Sentence(n, i + 1, if n > 1 then Some(9) else None, Fragment(payload, i)))
  {
    var n := FragmentCount(|payload|);
    FragmentHasNoComma(payload, i);
    assert NmeaSentences(payload)[i] == NmeaSentence(n, i + 1, SeqNum(n), Fragment(payload, i));
    ParseOfNmeaSentence(n, i + 1, Fragment(payload, i));
  }

  /** The fragments of a payload as sentences numbered from 1, under sequence
      id 9 when there are several and with no id when there is one. */
  function Framed(payload: string): (ss: seq<Sentence>)
    ensures |ss| == FragmentCount(|payload|)
    ensures forall i :: 0 <= i < |ss| ==>
      ss[i] == Sentence(|ss|, i + 1, if |ss| > 1 then Some(9) else None, Fragment(payload, i))
  {
    var n := FragmentCount(|payload|);
    seq(n, i requires 0 <= i < n => Sentence(n, i + 1, if n > 1 then Some(9) else None, Fragment(payload, i)))
  }

  /** main parses the sentences build_nmea writes for a payload into the
      fragments of that payload, numbered as build_nmea numbers them. */
  lemma ParseOfNmeaSentences(payload: string)
    requires ',' !in payload
    ensures ParsedPrefix(NmeaSentences(payload)) == Framed(payload)
  {
    var lines := NmeaSentences(payload);
    var ss := Framed(payload);
    forall i | 0 <= i < |ss|
      ensures ParseSentence(lines[i]) == Some(ss[i])
    {
      ParseOfLine(payload, i);
    }
    ParsedAll(lines, ss);
  }

  /** The sentences build_nmea writes for a payload, read by main's loop,
      bring back that payload whole, once, after the last sentence; the
      fragment buffer ends as it began. A multi-sentence payload needs
      sequence id 9 to be free in the buffer, as main does not clear it. */
  lemma NmeaReassembles(st: State, payload: string)
    requires ',' !in payload && |payload| >= 1
    requires FragmentCount(|payload|) > 1 ==> 9 !in st.buffer
    ensures var n := FragmentCount(|payload|);
      var r := Run(st, ParsedPrefix(NmeaSentences(payload)));
      r.0.buffer == st.buffer && r.1 == Pendings(n - 1) + [Emit(payload)]
  {
    FragmentCountBound(|payload|, 0);
    ParseOfNmeaSentences(payload);
    if FragmentCount(|payload|) > 1 {
      SeveralFragments(st, payload);
    } else {
      OneFragment(st, payload);
    }
  }

  lemma SeveralFragments(st: State, payload: string)
    requires FragmentCount(|payload|) > 1 && 9 !in st.buffer
    requires ParsedPrefix(NmeaSentences(payload)) == Framed(payload)
    ensures var n := FragmentCount(|payload|);
      Run(st, ParsedPrefix(NmeaSentences(payload))) == (State(st.buffer, Some(9)), Pendings(n - 1) + [Emit(payload)])
  {
    FramedTrain(payload);
    FragmentsConcat(payload);
    RunTrain(st, 9, Fragments(payload));
  }

  lemma FramedTrain(payload: string)
    requires FragmentCount(|payload|) > 1
    ensures Framed(payload) == Train(FragmentCount(|payload|), 9, Fragments(payload))
  {
    var n := FragmentCount(|payload|);
    var ss, ts := Framed(payload), Train(n, 9, Fragments(payload));
    assert forall i :: 0 <= i < n ==> ss[i] == ts[i];
  }

  lemma OneFragment(st: State, payload: string)
    requires |payload| >= 1 && FragmentCount(|payload|) == 1
    requires ParsedPrefix(NmeaSentences(payload)) == Framed(payload)
    ensures Run(st, ParsedPrefix(NmeaSentences(payload))) == (State(st.buffer, st.lastSeq), [Emit(payload)])
  {
    FragmentCountBound(|payload|, 1);
    assert Fragment(payload, 0) == payload;
    var ss := ParsedPrefix(NmeaSentences(payload));
    assert ss[..0] == [];
    assert Run(st, ss[..0]) == (st, []);
    assert Step(st, ss[0]) == (State(st.buffer, st.lastSeq), Emit(payload));
    assert [] + [Emit(payload)] == [Emit(payload)];
    assert Run(st, ss) == (State(st.buffer, st.lastSeq), [Emit(payload)]);
  }

  // ---- End to end ----

  /** The armored stream of a built type-5 report decodes to the stream with
      four zero bits inserted before its last two bits; its first 428 bits
      are the built ones, as those last bits are zero. */
  lemma UnarmorOfBuilt(d: StaticVoyageData)
    requires BuildBitstream(d).Ok? && Fits(d)
    ensures var b := BuildBitstream(d).value;
      Unarmor(Armor(b)).Ok? && |Unarmor(Armor(b)).value| >= 428 && Unarmor(Armor(b)).value[..428] == b
  {
    var b := BuildBitstream(d).value;
    assert |b| == 428;
    assert CodeCount(428) == 72;
    UnarmorArmorShort(b, 426, 4);
    var u := b[..426] + Zeros(4) + b[426..];
    LayoutPieces(d, EncodeForAis(d.callSign, 7).value, EncodeForAis(d.vesselName, 20).value,
      EncodeForAis(d.destination, 20).value, b);
    InsertedZeros(b, u);
  }

  lemma InsertedZeros(b: Bits, u: Bits)
    requires |b| == 428 && b[423..428] == Zeros(5) && u == b[..426] + Zeros(4) + b[426..]
    ensures |u| >= 428 && u[..428] == b
  {
    assert forall i :: 426 <= i < 428 ==> u[i] == b[i] by {
      assert forall i :: 426 <= i < 428 ==> b[i] == b[423..428][i - 423];
    }
    assert forall i :: 0 <= i < 426 ==> u[i] == b[i];
  }

  /** main's decoding of the armored stream of a built type-5 report gives the
      report back. */
  lemma DecodeOfBuilt(d: StaticVoyageData)
    requires BuildBitstream(d).Ok? && Fits(d)
    ensures DecodeMessage(Armor(BuildBitstream(d).value)) == Ok(StaticVoyageOf(d))
  {
    var b := BuildBitstream(d).value;
    UnarmorOfBuilt(d);
    var u := Unarmor(Armor(b)).value;
    ParseAisOfBuilt(d, u);
    DecodeOfParsed(Armor(b), u, StaticVoyageOf(d));
  }

  /** parse_ais picks the type-5 parser for a stream that starts with a
      built type-5 report. */
  lemma ParseAisOfBuilt(d: StaticVoyageData, u: Bits)
    requires BuildBitstream(d).Ok? && Fits(d)
    requires |u| >= 428 && u[..428] == BuildBitstream(d).value
    ensures ParseAis(u) == Ok(StaticVoyageOf(d))
  {
    TypeOfBuilt(d, u);
    ParseAisOfType(u, 5);
    DispatchStaticVoyage(u);
    StaticVoyageRoundTrip(d, u);
  }

  lemma TypeOfBuilt(d: StaticVoyageData, u: Bits)
    requires BuildBitstream(d).Ok? && Fits(d)
    requires |u| >= 428 && u[..428] == BuildBitstream(d).value
    ensures Field(u, 0, 6) == Ok(5)
  {
    LayoutPieces(d, EncodeForAis(d.callSign, 7).value, EncodeForAis(d.vesselName, 20).value,
      EncodeForAis(d.destination, 20).value, u);
    HeaderFields(d, u);
  }

  lemma ParseAisOfType(bs: Bits, id: nat)
    requires Field(bs, 0, 6) == Ok(id)
    ensures ParseAis(bs) == Dispatch(id, bs)
  {
  }

  lemma DispatchStaticVoyage(bs: Bits)
    ensures Dispatch(5, bs) == ParseStaticVoyageReport(bs)
  {
  }

  lemma DecodeOfParsed(payload: string, u: Bits, m: Message)
    requires Unarmor(payload) == Ok(u) && ParseAis(u) == Ok(m)
    ensures DecodeMessage(payload) == Ok(m)
  {
  }

  /** The whole path of a type-5 report: aiscraft builds the bitstream,
      armors it and frames it as two sentences; aisdump's loop reads them,
      emits the payload once, on the second sentence, and decodes it to the
      report with every integer field as given and each text field as the
      decoder shows it. */
  lemma VoyageReportEndToEnd(d: StaticVoyageData, st: State)
    requires BuildBitstream(d).Ok? && Fits(d) && 9 !in st.buffer
    ensures var payload := Armor(BuildBitstream(d).value);
      var r := Run(st, ParsedPrefix(NmeaSentences(payload)));
      |NmeaSentences(payload)| == 2 && r.0.buffer == st.buffer && r.1 == [Pending, Emit(payload)] &&
      DecodeMessage(payload) == Ok(StaticVoyageOf(d))
  {
    var payload := Armor(BuildBitstream(d).value);
    ArmoredBuilt(d);
    TwoSentences(st, payload);
    DecodeOfBuilt(d);
  }

  /** The armored stream of a built type-5 report: 72 wire characters, none a comma. */
  lemma ArmoredBuilt(d: StaticVoyageData)
    requires BuildBitstream(d).Ok? && Fits(d)
    ensures |Armor(BuildBitstream(d).value)| == 72 && ',' !in Armor(BuildBitstream(d).value)
  {
    var b := BuildBitstream(d).value;
    assert |b| == 428;
    assert CodeCount(428) == 72;
    ArmorHasNoComma(Armor(b));
  }

  lemma ArmorHasNoComma(s: string)
    requires forall i :: 0 <= i < |s| ==> IsArmorChar(s[i])
    ensures ',' !in s
  {
    assert forall i :: 0 <= i < |s| ==> s[i] != ',';
  }

  /** A 72-character payload travels in two sentences and comes back whole on the second. */
  lemma TwoSentences(st: State, payload: string)
    requires |payload| == 72 && ',' !in payload && 9 !in st.buffer
    ensures var r := Run(st, ParsedPrefix(NmeaSentences(payload)));
      |NmeaSentences(payload)| == 2 && r.0.buffer == st.buffer && r.1 == [Pending, Emit(payload)]
  {
    assert FragmentCount(72) == 2;
    NmeaReassembles(st, payload);
    assert Pendings(1) + [Emit(payload)] == [Pending, Emit(payload)];
  }

  /** Text already in the form the decoder shows (upper-case six-bit text that
      fits its field, with no space at either end and no trailing '@') comes
      back exactly: the decoded report is the input, field for field. */
  lemma StaticVoyageOfShown(d: StaticVoyageData)
    requires IsShownText(d.callSign, 7) && IsShownText(d.vesselName, 20) && IsShownText(d.destination, 20)
    ensures BuildBitstream(d).Ok?
    ensures StaticVoyageOf(d).callSign == d.callSign && StaticVoyageOf(d).vesselName == d.vesselName
    ensures StaticVoyageOf(d).destination == d.destination
  {
    ShownOfPadded(d.callSign, 7);
    ShownOfPadded(d.vesselName, 20);
    ShownOfPadded(d.destination, 20);
  }
}
