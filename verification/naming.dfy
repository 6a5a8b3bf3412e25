/** Output file names `<prefix>_splt-NN.stl`, where `NN` is the part number written as
    `{n:02d}` formats it: decimal, zero-padded to at least two digits. */
module Naming {
  import opened Outcome

  predicate IsDigit(ch: char) {
    '0' <= ch <= '9'
  }

  predicate AllDigits(s: string) {
    forall k :: 0 <= k < |s| ==> IsDigit(s[k])
  }

  function DigitChar(d: int): (ch: char)
    requires 0 <= d < 10
    ensures IsDigit(ch)
  {
    (d + '0' as int) as char
  }

  function DigitValue(ch: char): (d: int)
    requires IsDigit(ch)
    ensures 0 <= d < 10
    ensures DigitChar(d) == ch
  {
    ch as int - '0' as int
  }

  /** The decimal numeral of `n`, most significant digit first, without leading zeros. */
  function Decimal(n: nat): (s: string)
    ensures |s| >= 1 && AllDigits(s)
    ensures |s| > 1 ==> s[0] != '0'
    decreases n
  {
    if n < 10 then [DigitChar(n)] else Decimal(n / 10) + [DigitChar(n % 10)]
  }

  /** The value of a string of digits. */
  function ParseDecimal(s: string): nat
    requires AllDigits(s)
    decreases |s|
  {
    if |s| == 0 then 0 else ParseDecimal(s[..|s| - 1]) * 10 + DigitValue(s[|s| - 1])
  }

  /** Reading back a numeral gives the number it was written from. */
  lemma {:induction false} DecimalRoundTrip(n: nat)
    ensures ParseDecimal(Decimal(n)) == n
    decreases n
  {
    var s := Decimal(n);
    if n < 10 {
      assert s[..0] == [];
    } else {
      DecimalRoundTrip(n / 10);
      assert s[..|s| - 1] == Decimal(n / 10);
      assert DigitValue(s[|s| - 1]) == n % 10;
    }
  }

  /** The shape `{n:02d}` gives a numeral: digits only, at least two of them, and a leading
      `0` only as the padding of a two-digit field. */
  predicate PaddedNumeral(s: string) {
    AllDigits(s) && |s| >= 2 && (|s| == 2 || s[0] != '0')
  }

  /** `f"{n:02d}"`: the numeral of `n`, with a leading `0` when it has a single digit, so
      exactly two characters below 10 and the plain numeral from 10 upwards. */
  function PartNumberText(n: nat): (s: string)
    ensures PaddedNumeral(s)
    ensures ParseDecimal(s) == n
    ensures n < 10 ==> |s| == 2
    ensures n >= 10 ==> s == Decimal(n)
  {
    var digits := Decimal(n);
    DecimalRoundTrip(n);
    if |digits| >= 2 then digits
    else
      var s := "0" + digits;
      assert s[..|s| - 1] == "0";
      assert ParseDecimal("0") == 0 by { assert "0"[..0] == []; }
      s
  }

  /** A numeral without a superfluous leading zero is the decimal numeral of its value, and
      one of two or more digits is worth at least 10. */
  lemma {:induction false} CanonicalDecimal(d: string)
    requires AllDigits(d) && |d| >= 1
    requires |d| == 1 || d[0] != '0'
    ensures Decimal(ParseDecimal(d)) == d
    ensures |d| >= 2 ==> ParseDecimal(d) >= 10
    decreases |d|
  {
    var init := d[..|d| - 1];
    var last := d[|d| - 1];
    if |d| == 1 {
      assert init == [];
      assert d == [last];
    } else {
      assert init[0] == d[0];
      CanonicalDecimal(init);
      var m := ParseDecimal(init);
      assert m >= 1 by {
        if |init| == 1 {
          assert init[..0] == [];
          assert DigitChar(DigitValue(init[0])) == init[0];
        }
      }
      var n := m * 10 + DigitValue(last);
      assert n / 10 == m && n % 10 == DigitValue(last);
      assert d == init + [last];
    }
  }

  /** Every padded numeral is the text `{n:02d}` writes for its value: no other spelling
      of a part number reads back. */
  lemma PaddedNumeralIsPartNumberText(s: string)
    requires PaddedNumeral(s)
    ensures s == PartNumberText(ParseDecimal(s))
  {
    var n := ParseDecimal(s);
    if s[0] != '0' {
      CanonicalDecimal(s);
    } else {
      var head := s[..1];
      assert s[..|s| - 1] == head && head[..0] == [] && head[0] == '0';
      assert ParseDecimal(head) == 0;
      assert n == DigitValue(s[1]);
      assert Decimal(n) == [s[1]];
    }
  }

  const Separator: string := "_splt-"
  const Extension: string := ".stl"

  /** `f"{output_prefix}_splt-{part_number:02d}.stl"`: the prefix, the separator, a two-digit
      field for numbers below 10 (the numeral's own length above), and the extension. */
  function PartName(prefix: string, n: nat): (name: string)
    ensures |name| == |prefix| + |Separator| + (if n < 10 then 2 else |Decimal(n)|) + |Extension|
    ensures name[..|prefix|] == prefix
    ensures name[|prefix|..|prefix| + |Separator|] == Separator
    ensures name[|name| - |Extension|..] == Extension
    ensures PaddedNumeral(name[|prefix| + |Separator|..|name| - |Extension|])
  {
    var text := PartNumberText(n);
    var name := prefix + Separator + text + Extension;
    assert name[|prefix| + |Separator|..|name| - |Extension|] == text;
    name
  }

  /** Reads the part number back from a name built for `prefix`, or `None` when the name
      does not have the shape `<prefix>_splt-NN.stl` with `NN` as `{n:02d}` writes it. */
  function ParsePartName(prefix: string, name: string): Option<nat> {
    var head := |prefix| + |Separator|;
    if |name| < head + |Extension| then None
    else if name[..head] != prefix + Separator then None
    else if name[|name| - |Extension|..] != Extension then None
    else
      var digits := name[head..|name| - |Extension|];
      if PaddedNumeral(digits) then Some(ParseDecimal(digits)) else None
  }

  /** A part's name reads back as its part number. */
  lemma PartNameRoundTrip(prefix: string, n: nat)
    ensures ParsePartName(prefix, PartName(prefix, n)) == Some(n)
  {
    var name := PartName(prefix, n);
    var text := PartNumberText(n);
    var head := |prefix| + |Separator|;
    assert name == (prefix + Separator) + text + Extension;
    assert name[..head] == prefix + Separator;
    assert name[|name| - |Extension|..] == Extension;
    assert name[head..|name| - |Extension|] == text;
  }

  /** A name reads back as part `n` exactly when it is the name written for part `n`: the
      read-back pins the whole name, zero padding included. */
  lemma PartNameExact(prefix: string, name: string, n: nat)
    ensures ParsePartName(prefix, name) == Some(n) <==> name == PartName(prefix, n)
  {
    PartNameRoundTrip(prefix, n);
    if ParsePartName(prefix, name) == Some(n) {
      var head := |prefix| + |Separator|;
      var digits := name[head..|name| - |Extension|];
      PaddedNumeralIsPartNumberText(digits);
      assert name == name[..head] + digits + name[|name| - |Extension|..];
    }
  }

  /** Different part numbers give different file names, so no part overwrites another. */
  lemma PartNamesDistinct(prefix: string, a: nat, b: nat)
    requires a != b
    ensures PartName(prefix, a) != PartName(prefix, b)
  {
    PartNameRoundTrip(prefix, a);
    PartNameRoundTrip(prefix, b);
  }
}
