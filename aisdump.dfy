/** The decoding primitives of aisdump.py: turning an armored AIVDM payload
    into a bitstream, reading six-bit text fields out of a bitstream, and the
    best-effort text rendering of binary payloads. */
module AisDump {
  import opened Wrappers
  import opened Bits
  import opened Strings
  import opened SixBitAlphabet

  /** ascii_to_sixbit: the six-bit code an armored wire character carries. */
  function UnarmorChar(c: char): (r: Result<nat>)
    ensures r.Ok? <==> IsArmorChar(c)
    ensures r.Err? ==> r.error == InvalidAisCharacter
    ensures r.Ok? ==> r.value < 64
    ensures r.Ok? ==> (r.value < 40 <==> c as int <= 87)
  {
    var v := c as int;
    if 48 <= v <= 87 then Ok(v - 48)
    else if 96 <= v <= 119 then Ok(v - 56)
    else Err(InvalidAisCharacter)
  }

  /** A six-bit code formats to exactly six bits. */
  lemma SixBitWidth(v: nat)
    requires v < 64
    ensures |Format(v, 6)| == 6
  {
    FormatWidth(v, 6);
  }

  /** What decode_armored_ascii computes: each wire character contributes the
      six bits, most significant first, of its code; any character outside the
      armoring ranges is an error. */
  function Unarmor(payload: string): (r: Result<Bits>)
    ensures r.Ok? <==> forall i :: 0 <= i < |payload| ==> IsArmorChar(payload[i])
    ensures r.Err? ==> r.error == InvalidAisCharacter
    ensures r.Ok? ==> |r.value| == 6 * |payload|
  {
    if |payload| == 0 then Ok([])
    else
      var front :- Unarmor(payload[..|payload| - 1]);
      var v :- UnarmorChar(payload[|payload| - 1]);
      SixBitWidth(v);
      Ok(front + Format(v, 6))
  }

  /** The last character's six bits come last. */
  lemma UnarmorLast(payload: string)
    requires Unarmor(payload).Ok? && |payload| > 0
    ensures Unarmor(payload[..|payload| - 1]).Ok? && UnarmorChar(payload[|payload| - 1]).Ok?
    ensures Unarmor(payload).value
      == Unarmor(payload[..|payload| - 1]).value + Format(UnarmorChar(payload[|payload| - 1]).value, 6)
  {
  }

  /** Decoding a prefix of the payload gives a prefix of the decoded stream. */
  lemma {:induction false} UnarmorPrefix(payload: string, k: nat)
    requires Unarmor(payload).Ok? && k <= |payload|
    ensures Unarmor(payload[..k]).Ok?
    ensures Unarmor(payload[..k]).value == Unarmor(payload).value[..6 * k]
    decreases |payload|
  {
    var n := |payload| - 1;
    if k <= n {
      var front := payload[..n];
      UnarmorLast(payload);
      assert front[..k] == payload[..k];
      UnarmorPrefix(front, k);
      var a := Unarmor(front).value;
      var whole := Unarmor(payload).value;
      assert whole[..6 * n] == a;
      assert whole[..6 * k] == a[..6 * k];
    } else {
      assert payload[..k] == payload;
    }
  }

  /** The first six bits of the decoded stream are the code of the first character. */
  lemma UnarmorFirst(payload: string)
    requires Unarmor(payload).Ok? && |payload| > 0
    ensures UnarmorChar(payload[0]).Ok?
    ensures Unarmor(payload).value[..6] == Format(UnarmorChar(payload[0]).value, 6)
  {
    var first := payload[..1];
    UnarmorPrefix(payload, 1);
    assert first[..0] == [] && first[0] == payload[0];
    var v := UnarmorChar(payload[0]).value;
    SixBitWidth(v);
    assert Unarmor(first).value == [] + Format(v, 6);
  }

  /** decode_armored_ascii. */
  method DecodeArmoredAscii(message: string) returns (r: Result<Bits>)
    ensures r == Unarmor(message)
  {
    var bitstream: Bits := [];
    for i := 0 to |message|
      invariant Unarmor(message[..i]) == Ok(bitstream)
    {
      var sixbit := UnarmorChar(message[i]);
      if sixbit.Err? {
        return Err(InvalidAisCharacter);
      }
      assert message[..i + 1][..i] == message[..i];
      SixBitWidth(sixbit.value);
      bitstream := bitstream + Format(sixbit.value, 6);
    }
    assert message[..|message|] == message;
    return Ok(bitstream);
  }

  /** The alphabet entry for a code. The source falls back to a space for a
      code past the table, which a six-bit read never produces. */
  function Symbol(v: nat): char
  {
    if v < |Alphabet| then Alphabet[v] else ' '
  }

  /** The characters of the first k six-bit codes read from offset start,
      before any trimming; reading a code that starts past the end fails. */
  function RawText(bs: Bits, start: nat, k: nat): (r: Result<string>)
    ensures r.Ok? <==> k == 0 || start + 6 * (k - 1) < |bs|
    ensures r.Err? ==> r.error == EmptyBinaryLiteral
    ensures r.Ok? ==> |r.value| == k
  {
    if k == 0 then Ok([])
    else
      var front :- RawText(bs, start, k - 1);
      var v :- Field(bs, start + 6 * (k - 1), start + 6 * k);
      Ok(front + [Symbol(v)])
  }

  /** One more code read on the right, at bit i, extends the text by its symbol. */
  lemma RawTextNext(bs: Bits, start: nat, k: nat, i: nat, text: string, v: nat)
    requires i == start + 6 * k && RawText(bs, start, k) == Ok(text) && Field(bs, i, i + 6) == Ok(v)
    ensures RawText(bs, start, k + 1) == Ok(text + [Symbol(v)])
  {
    assert start + 6 * (k + 1 - 1) == i && start + 6 * (k + 1) == i + 6;
  }

  /** The number of codes a text field of `length` bits holds: one per
      started group of six bits. */
  function CodeCount(length: nat): nat { (length + 5) / 6 }

  /** The k-th code (from 0) starts inside the field exactly when k < CodeCount. */
  lemma CodeCountBound(length: nat, k: nat)
    ensures 6 * k < length <==> k < CodeCount(length)
  {
  }

  /** A loop that has started k groups and stops when the next would start
      past the field has read exactly CodeCount groups. */
  lemma CodeCountExact(length: nat, k: nat)
    requires k == 0 || 6 * (k - 1) < length
    requires length <= 6 * k
    ensures k == CodeCount(length)
  {
  }

  /** What aisdump's sixbit_to_ascii(bitstream, start, length) computes: the
      looked-up characters of the started six-bit groups, stripped of spaces
      at both ends and then of trailing '@' padding. */
  function TextField(bs: Bits, start: nat, length: nat): (r: Result<string>)
    ensures r.Ok? <==> length == 0 || start + 6 * (CodeCount(length) - 1) < |bs|
    ensures r.Err? ==> r.error == EmptyBinaryLiteral
    ensures r.Ok? ==> |r.value| <= CodeCount(length)
    ensures r.Ok? ==> |r.value| == 0 || (r.value[0] != ' ' && r.value[|r.value| - 1] != '@')
  {
    var raw :- RawText(bs, start, CodeCount(length));
    var stripped := Strip(raw);
    var text := TrimRight(stripped, '@');
    assert |text| == 0 || text[0] == stripped[0];
    Ok(text)
  }

  /** aisdump's sixbit_to_ascii(bitstream, start, length), which reads the
      codes from left to right. */
  method DecodeText(bitstream: Bits, start: nat, length: nat) returns (r: Result<string>)
    ensures r == TextField(bitstream, start, length)
  {
    var text := "";
    var i := start;
    ghost var k := 0;
    while i < start + length
      invariant i == start + 6 * k
      invariant k == 0 || 6 * (k - 1) < length
      invariant RawText(bitstream, start, k) == Ok(text)
      decreases start + length - i
    {
      var charVal := Field(bitstream, i, i + 6);
      if charVal.Err? {
        CodeCountBound(length, k);
        assert RawText(bitstream, start, CodeCount(length)).Err?;
        return Err(EmptyBinaryLiteral);
      }
      RawTextNext(bitstream, start, k, i, text, charVal.value);
      if charVal.value < |Alphabet| {
        text := text + [Alphabet[charVal.value]];
      } else {
        text := text + " ";
      }
      i := i + 6;
      k := k + 1;
    }
    CodeCountExact(length, k);
    return Ok(TrimRight(Strip(text), '@'));
  }

  /** One character of the decode attempt: the code plus 48, or '?' past ASCII. */
  function AttemptChar(code: nat): char
  {
    if code < 128 then code as char else '?'
  }

  /** A six-bit chunk of a bitstream, clipped at its end, is below 64. */
  lemma ChunkBound(payload: Bits, j: nat)
    ensures Uint(Slice(payload, 6 * j, 6 * j + 6)) < 64
  {
    Pow2Monotonic(|Slice(payload, 6 * j, 6 * j + 6)|, 6);
  }

  /** The decode attempt of the first k six-bit chunks of a binary payload:
      character j is 48 plus the value of chunk j. */
  function DecodeAttempt(payload: Bits, k: nat): (text: string)
    ensures |text| == k
    ensures forall j :: 0 <= j < k ==> text[j] as int == Uint(Slice(payload, 6 * j, 6 * j + 6)) + 48
    ensures forall j :: 0 <= j < k ==> 48 <= text[j] as int < 112
  {
    if k == 0 then ""
    else
      var code := Uint(Slice(payload, 6 * (k - 1), 6 * k));
      ChunkBound(payload, k - 1);
      DecodeAttempt(payload, k - 1) + [AttemptChar(code + 48)]
  }

  /** What parse_binary_data_payload computes: one character per started
      six-bit chunk, never the '?' fallback. */
  function BinaryPayloadText(payload: Bits): (text: string)
    ensures |text| == CodeCount(|payload|)
    ensures forall j :: 0 <= j < |text| ==> 48 <= text[j] as int < 112
  {
    DecodeAttempt(payload, CodeCount(|payload|))
  }

  /** parse_binary_data_payload. */
  method ParseBinaryDataPayload(payload: Bits) returns (text: string)
    ensures text == BinaryPayloadText(payload)
  {
    text := "";
    var i := 0;
    ghost var k := 0;
    while i < |payload|
      invariant i == 6 * k && k <= CodeCount(|payload|)
      invariant k == 0 || 6 * (k - 1) < |payload|
      invariant text == DecodeAttempt(payload, k)
      decreases |payload| - i
    {
      CodeCountBound(|payload|, k);
      var charCode := Uint(Slice(payload, i, i + 6)) + 48;
      text := text + [if charCode < 128 then charCode as char else '?'];
      i := i + 6;
      k := k + 1;
    }
    CodeCountExact(|payload|, k);
  }
}
