/** The 64-symbol six-bit text alphabet of ITU-R M.1371 (Table 47 of Annex 8):
    the position of a symbol is its code. Both the encoder and the decoder
    carry a copy of this table; the model keeps one. */
module SixBitAlphabet {
  import opened Wrappers

  /** Codes 0..31: '@', the letters and five punctuation marks. */
  const Letters: string := "@ABCDEFGHIJKLMNOPQRSTUVWXYZ[\\]^_"
  /** Codes 32..63: the space, punctuation and the digits. */
  const Figures: string := " !\"#$%&'()*+,-./0123456789:;<=>?"
  const Alphabet: string := Letters + Figures

  /** The table is ASCII 64..95 for codes 0..31 followed by ASCII 32..63 for codes 32..63. */
  lemma AlphabetShape()
    ensures |Alphabet| == 64
    ensures forall i :: 0 <= i < 64 ==> Alphabet[i] as int == if i < 32 then i + 64 else i
  {
    assert |Alphabet| == 64;
    forall i | 0 <= i < 64
      ensures Alphabet[i] as int == if i < 32 then i + 64 else i
    {
      if i < 32 {
        assert Alphabet[i] == Letters[i];
      } else {
        assert Alphabet[i] == Figures[i - 32];
      }
    }
  }

  /** The symbols are exactly the characters from ' ' (32) to '_' (95). */
  lemma AlphabetMembership(c: char)
    ensures c in Alphabet <==> 32 <= c as int < 96
  {
    AlphabetShape();
    if 32 <= c as int < 96 {
      var i := if c as int >= 64 then c as int - 64 else c as int;
      assert Alphabet[i] == c;
    }
  }

  /** str.index(c): the position of the first occurrence of c, if any. */
  function IndexOf(s: string, c: char): (r: Option<nat>)
    ensures r.None? <==> c !in s
    ensures r.Some? ==> r.value < |s| && s[r.value] == c
    ensures r.Some? ==> forall j :: 0 <= j < r.value ==> s[j] != c
  {
    if |s| == 0 then None
    else if s[0] == c then Some(0)
    else match IndexOf(s[1..], c)
      case None => None
      case Some(k) => Some(k + 1)
  }

  /** The characters that have a six-bit code: ' ' (32) to '_' (95). */
  predicate IsTextChar(c: char)
  {
    32 <= c as int < 96
  }

  /** ais_chars.index(c): the six-bit code of a text character, or the
      ValueError raised for a character outside the alphabet. The table's
      shape makes the index arithmetic; CodeIsIndex ties the two together. */
  function Code(c: char): (r: Result<nat>)
    ensures r.Ok? <==> IsTextChar(c)
    ensures r.Err? ==> r.error == CharacterNotInAlphabet
    ensures r.Ok? ==> r.value < 64
  {
    if 64 <= c as int < 96 then Ok(c as int - 64)
    else if 32 <= c as int < 64 then Ok(c as int)
    else Err(CharacterNotInAlphabet)
  }

  /** The code of a character is its first position in the alphabet, and a
      character without a code does not occur in the alphabet. */
  lemma CodeIsIndex(c: char)
    ensures Code(c).Ok? ==> IndexOf(Alphabet, c) == Some(Code(c).value)
    ensures Code(c).Err? ==> IndexOf(Alphabet, c) == None
  {
    AlphabetMembership(c);
    AlphabetShape();
    if Code(c).Ok? {
      var k := IndexOf(Alphabet, c).value;
      assert Alphabet[k] == c;
      assert Alphabet[Code(c).value] == c;
    }
  }

  /** The armored wire characters: '0'..'W' (48..87) carry codes 0..39 and
      '`'..'w' (96..119) carry codes 40..63. The two ranges do not overlap. */
  predicate IsArmorChar(c: char)
  {
    48 <= c as int <= 87 || 96 <= c as int <= 119
  }

  /** Looking a code up and finding the symbol again gives back the code. */
  lemma CodeOfSymbol(v: nat)
    requires v < 64
    ensures Code(Alphabet[v]) == Ok(v)
  {
    AlphabetShape();
  }

  /** Looking up the code of a text character gives back the character. */
  lemma SymbolOfCode(c: char)
    requires IsTextChar(c)
    ensures Alphabet[Code(c).value] == c
  {
    AlphabetShape();
  }
}
