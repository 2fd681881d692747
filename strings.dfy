/** The handful of Python string operations the codec relies on, over
    Dafny strings (sequences of characters). */
module Strings {
  import opened Wrappers

  function Max(a: nat, b: nat): nat { if a < b then b else a }

  /** str.upper() on one character, for the ASCII letters. */
  function UpperChar(c: char): char
  {
    if 'a' <= c <= 'z' then (c as int - 32) as char else c
  }

  /** str.upper(): lower-case ASCII letters become upper-case, every other
      character is kept (the non-ASCII case mappings are not modelled). */
  function Upper(s: string): (u: string)
    ensures |u| == |s|
    ensures forall i :: 0 <= i < |s| ==> u[i] == UpperChar(s[i])
    ensures forall i :: 0 <= i < |u| ==> !('a' <= u[i] <= 'z')
  {
    seq(|s|, i requires 0 <= i < |s| => UpperChar(s[i]))
  }

  /** s.ljust(n, pad): s followed by as many pads as make it n long; never shortens s. */
  function LeftJustify<T>(s: seq<T>, n: nat, pad: T): (r: seq<T>)
    ensures |r| == Max(|s|, n)
    ensures r[..|s|] == s
    ensures forall i :: |s| <= i < |r| ==> r[i] == pad
  {
    if |s| < n then s + seq(n - |s|, i => pad) else s
  }

  /** s[:n]. */
  function Take<T>(s: seq<T>, n: nat): (r: seq<T>)
    ensures |r| == if n < |s| then n else |s|
    ensures r == s[..|r|]
  {
    if n < |s| then s[..n] else s
  }

  /** s.lstrip(c): the longest suffix of s that does not start with c. */
  function TrimLeft(s: string, c: char): (r: string)
    ensures |r| <= |s| && r == s[|s| - |r|..]
    ensures forall i :: 0 <= i < |s| - |r| ==> s[i] == c
    ensures |r| == 0 || r[0] != c
  {
    if |s| > 0 && s[0] == c then TrimLeft(s[1..], c) else s
  }

  /** s.rstrip(c): the longest prefix of s that does not end with c. */
  function TrimRight(s: string, c: char): (r: string)
    ensures |r| <= |s| && r == s[..|r|]
    ensures forall i :: |r| <= i < |s| ==> s[i] == c
    ensures |r| == 0 || r[|r| - 1] != c
  {
    if |s| > 0 && s[|s| - 1] == c then TrimRight(s[..|s| - 1], c) else s
  }

  /** Everything of s outside s[i..j] is a space. */
  ghost predicate SpacesAround(s: string, i: nat, j: nat)
    requires i <= j <= |s|
  {
    (forall k :: 0 <= k < i ==> s[k] == ' ') && (forall k :: j <= k < |s| ==> s[k] == ' ')
  }

  /** s.strip() for text over the six-bit alphabet, where the space is the
      only whitespace character: spaces are removed from both ends. */
  function Strip(s: string): (r: string)
    ensures |r| <= |s|
    ensures |r| == 0 || (r[0] != ' ' && r[|r| - 1] != ' ')
    ensures exists i, j ::
      0 <= i <= j <= |s| && r == s[i..j] && SpacesAround(s, i, j)
  {
    var left := TrimLeft(s, ' ');
    var r := TrimRight(left, ' ');
    var i := |s| - |left|;
    var j := i + |r|;
    assert r == s[i..j];
    assert SpacesAround(s, i, j) by {
      forall k | j <= k < |s|
        ensures s[k] == ' '
      {
        assert s[k] == left[k - i];
      }
    }
    r
  }

  function DecimalDigit(d: nat): (c: char)
    requires d < 10
    ensures '0' <= c <= '9'
  {
    ('0' as int + d) as char
  }

  /** f"{n}": the decimal digits of n, without leading zeros. */
  function Decimal(n: nat): (s: string)
    ensures |s| >= 1
    ensures forall i :: 0 <= i < |s| ==> '0' <= s[i] <= '9'
    ensures s[0] == '0' ==> n == 0
    decreases n
  {
    if n < 10 then [DecimalDigit(n)] else Decimal(n / 10) + [DecimalDigit(n % 10)]
  }

  /** int(s) for a string of decimal digits; None for the empty string or any other character. */
  function ParseDecimal(s: string): (r: Option<nat>)
    ensures r.Some? <==> |s| >= 1 && forall i :: 0 <= i < |s| ==> '0' <= s[i] <= '9'
  {
    if |s| == 0 || !('0' <= s[|s| - 1] <= '9') then None
    else if |s| == 1 then Some(s[0] as int - '0' as int)
    else
      match ParseDecimal(s[..|s| - 1])
      case None => None
      case Some(v) => Some(10 * v + (s[|s| - 1] as int - '0' as int))
  }

  /** Rendering and reading back a number are inverse. */
  lemma {:induction false} ParseDecimalOfDecimal(n: nat)
    ensures ParseDecimal(Decimal(n)) == Some(n)
    decreases n
  {
    if n >= 10 {
      var s := Decimal(n);
      assert s[..|s| - 1] == Decimal(n / 10);
      ParseDecimalOfDecimal(n / 10);
    }
  }

  /** An upper-case hexadecimal digit. */
  predicate IsHexDigit(c: char)
  {
    '0' <= c <= '9' || 'A' <= c <= 'F'
  }

  /** The upper-case hexadecimal digit of d. */
  function HexDigit(d: nat): (c: char)
    requires d < 16
    ensures IsHexDigit(c)
  {
    if d < 10 then ('0' as int + d) as char else ('A' as int + d - 10) as char
  }

  function HexDigitValue(c: char): nat
  {
    if '0' <= c <= '9' then c as int - '0' as int
    else if 'A' <= c <= 'F' then c as int - 'A' as int + 10
    else 0
  }

  /** The minimal upper-case hexadecimal digits of v ("0" for zero). */
  function HexUpper(v: nat): (s: string)
    ensures |s| >= 1
    ensures forall i :: 0 <= i < |s| ==> IsHexDigit(s[i])
    ensures v < 16 <==> |s| == 1
    decreases v
  {
    if v < 16 then [HexDigit(v)] else HexUpper(v / 16) + [HexDigit(v % 16)]
  }

  /** The value of a string of upper-case hexadecimal digits. */
  function HexValue(s: string): nat
  {
    if |s| == 0 then 0 else 16 * HexValue(s[..|s| - 1]) + HexDigitValue(s[|s| - 1])
  }

  /** format(v, '02X'): upper-case hexadecimal, zero-padded to at least two digits. */
  function Hex2(v: nat): (s: string)
    ensures |s| >= 2
    ensures forall i :: 0 <= i < |s| ==> IsHexDigit(s[i])
    ensures |s| == 2 <==> v < 256
    ensures HexValue(s) == v
  {
    var d := HexUpper(v);
    HexValueOfHexUpper(v);
    HexUpperLength(v);
    if |d| < 2 then
      assert HexValue("0" + d) == HexValue(d) by {
        assert ("0" + d)[..1] == "0";
      }
      "0" + d
    else d
  }

  lemma {:induction false} HexValueOfHexUpper(v: nat)
    ensures HexValue(HexUpper(v)) == v
    decreases v
  {
    if v >= 16 {
      var s := HexUpper(v);
      assert s[..|s| - 1] == HexUpper(v / 16);
      HexValueOfHexUpper(v / 16);
      assert HexDigitValue(HexDigit(v % 16)) == v % 16;
    } else {
      assert HexDigitValue(HexDigit(v)) == v;
      assert HexUpper(v)[..0] == [];
    }
  }

  lemma {:induction false} HexUpperLength(v: nat)
    ensures |HexUpper(v)| <= 2 <==> v < 256
    decreases v
  {
    if v >= 16 {
      HexUpperLength(v / 16);
    }
  }

  /** str.split(sep): the pieces between the separators, in order; a string
      without any separator is one piece. */
  function Split(s: string, sep: char): (parts: seq<string>)
    ensures |parts| >= 1
    decreases |s|
  {
    if |s| == 0 then [""]
    else if s[0] == sep then [""] + Split(s[1..], sep)
    else
      var rest := Split(s[1..], sep);
      [[s[0]] + rest[0]] + rest[1..]
  }

  lemma {:induction false} SplitNoSeparator(s: string, sep: char)
    requires sep !in s
    ensures Split(s, sep) == [s]
    decreases |s|
  {
    if |s| > 0 {
      SplitNoSeparator(s[1..], sep);
      assert [s[0]] + s[1..] == s;
    }
  }

  /** Splitting at the first separator: the piece before it, then the pieces of the rest. */
  lemma {:induction false} SplitAtSeparator(a: string, sep: char, b: string)
    requires sep !in a
    ensures Split(a + [sep] + b, sep) == [a] + Split(b, sep)
    decreases |a|
  {
    var s := a + [sep] + b;
    if |a| == 0 {
      assert s[1..] == b;
    } else {
      assert s[1..] == a[1..] + [sep] + b;
      SplitAtSeparator(a[1..], sep, b);
      assert [a[0]] + a[1..] == a;
    }
  }

  /** Splitting at the last separator: the pieces of what comes before it, then the piece after it. */
  lemma {:induction false} SplitAtLastSeparator(a: string, sep: char, b: string)
    requires sep !in b
    ensures Split(a + [sep] + b, sep) == Split(a, sep) + [b]
    decreases |a|
  {
    var s := a + [sep] + b;
    if |a| == 0 {
      assert s[1..] == b;
      SplitNoSeparator(b, sep);
    } else {
      assert s[1..] == a[1..] + [sep] + b;
      SplitAtLastSeparator(a[1..], sep, b);
    }
  }

  /** The first k + 1 elements are the first k and then element k. */
  lemma PrefixSnoc<T>(s: seq<T>, k: nat)
    requires k < |s|
    ensures s[..k + 1] == s[..k] + [s[k]]
  {
  }

  /** ''.join(parts). */
  function Concat(parts: seq<string>): string
  {
    if |parts| == 0 then "" else Concat(parts[..|parts| - 1]) + parts[|parts| - 1]
  }

  lemma ConcatSnoc(parts: seq<string>, k: nat)
    requires 1 <= k <= |parts|
    ensures Concat(parts[..k]) == Concat(parts[..k - 1]) + parts[k - 1]
  {
    assert parts[..k][..k - 1] == parts[..k - 1];
  }
}
