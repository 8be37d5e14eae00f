/** Currency text: Brazilian and international layouts normalised to one plain decimal. */
module CurrencyText {
  import opened Text

  predicate IsSeparator(c: char) { c == ',' || c == '.' }

  predicate IsNumeric(c: char) { IsDigit(c) || IsSeparator(c) || c == '-' }

  predicate NotSeparator(c: char) { !IsSeparator(c) }

  function LastIndex(s: string, c: char): (i: int)
    ensures -1 <= i < |s|
    ensures i >= 0 ==> s[i] == c
    ensures forall k :: i < k < |s| ==> s[k] != c
  {
    if s == "" then -1
    else if s[|s| - 1] == c then |s| - 1
    else LastIndex(s[..|s| - 1], c)
  }

  function DecimalIndex(s: string): (i: int)
    ensures -1 <= i < |s|
  {
    var comma, dot := LastIndex(s, ','), LastIndex(s, '.');
    if comma < dot then dot else comma
  }

  /** `normalizeCurrencyValue` */
  function Normalize(value: string): string {
    var numeric := Keep(value, IsNumeric);
    if numeric == "" then value else
      var d := DecimalIndex(numeric);
      if d >= 0 && |numeric| - d - 1 <= 2
      then Keep(numeric[..d], NotSeparator) + "." + Keep(numeric[d + 1..], NotSeparator)
      else Keep(numeric, NotSeparator)
  }

  /** Text that the last separator splits into a whole part and a separator-free fraction. */
  lemma DecimalIndexAt(whole: string, c: char, fraction: string)
    requires IsSeparator(c) && All(fraction, NotSeparator)
    ensures DecimalIndex(whole + [c] + fraction) == |whole|
  {
    var s := whole + [c] + fraction;
    assert s[|whole|] == c;
    assert forall k :: |whole| < k < |s| ==> s[k] == fraction[k - |whole| - 1];
  }

  lemma DecimalIndexNone(s: string)
    requires All(s, NotSeparator)
    ensures DecimalIndex(s) == -1
  {
  }

  lemma {:induction false} KeepBoth(s: string, p: char -> bool, q: char -> bool)
    requires All(s, p)
    ensures All(Keep(s, q), p)
  {
    if s != "" {
      KeepBoth(s[1..], p, q);
    }
  }

  lemma AllConcat(s: string, t: string, p: char -> bool)
    requires All(s, p) && All(t, p)
    ensures All(s + t, p)
  {
  }

  /** A whole part and a fraction of at most two characters, joined by one dot. */
  ghost predicate IsDecimal(whole: string, fraction: string) {
    && All(whole, NotSeparator) && All(whole, IsNumeric)
    && All(fraction, NotSeparator) && All(fraction, IsNumeric) && |fraction| <= 2
  }

  lemma SeparatorNumeric(c: char)
    requires IsSeparator(c)
    ensures All([c], IsNumeric)
  {
  }

  lemma NormalizeSplit(whole: string, c: char, fraction: string)
    requires IsSeparator(c) && All(whole, IsNumeric) && All(fraction, IsNumeric)
    requires All(fraction, NotSeparator) && |fraction| <= 2
    ensures Normalize(whole + [c] + fraction) == Keep(whole, NotSeparator) + "." + fraction
  {
    hide Keep, DecimalIndex, IsSeparator;
    var s := whole + [c] + fraction;
    assert All([c], IsNumeric) by { SeparatorNumeric(c); }
    AllConcat(whole, [c], IsNumeric);
    AllConcat(whole + [c], fraction, IsNumeric);
    KeepAll(s, IsNumeric);
    DecimalIndexAt(whole, c, fraction);
    assert s[..|whole|] == whole && s[|whole| + 1..] == fraction;
    KeepAll(fraction, NotSeparator);
  }

  lemma DecimalFixed(whole: string, fraction: string)
    requires IsDecimal(whole, fraction)
    ensures Normalize(whole + "." + fraction) == whole + "." + fraction
  {
    hide Keep, Normalize;
    assert "." == ['.'];
    NormalizeSplit(whole, '.', fraction);
    KeepAll(whole, NotSeparator);
  }

  lemma PlainFixed(s: string)
    requires All(s, IsNumeric) && All(s, NotSeparator)
    ensures Normalize(s) == s
  {
    hide Keep, DecimalIndex;
    KeepAll(s, IsNumeric);
    KeepAll(s, NotSeparator);
    DecimalIndexNone(s);
  }

  /** The normalised form of every input normalises to itself. */
  lemma NormalizeIdempotent(value: string)
    ensures Normalize(Normalize(value)) == Normalize(value)
  {
    hide Keep, DecimalIndex;
    var numeric := Keep(value, IsNumeric);
    if numeric != "" {
      var d := DecimalIndex(numeric);
      if d >= 0 && |numeric| - d - 1 <= 2 {
        KeepBoth(numeric[..d], IsNumeric, NotSeparator);
        KeepBoth(numeric[d + 1..], IsNumeric, NotSeparator);
        DecimalFixed(Keep(numeric[..d], NotSeparator), Keep(numeric[d + 1..], NotSeparator));
      } else {
        KeepBoth(numeric, IsNumeric, NotSeparator);
        PlainFixed(Keep(numeric, NotSeparator));
      }
    }
  }

  /** Normalised text carries no surrounding space unless the input, too, had nothing numeric in it. */
  lemma NormalizeTrimmed(value: string)
    requires Trim(value) == value
    ensures Trim(Normalize(value)) == Normalize(value)
  {
    hide Keep, DecimalIndex, LastIndex, Trim;
    var r := Normalize(value);
    var numeric := Keep(value, IsNumeric);
    if numeric != "" {
      var d := DecimalIndex(numeric);
      KeepBoth(numeric, IsNumeric, NotSeparator);
      if d >= 0 {
        KeepBoth(numeric[..d], IsNumeric, NotSeparator);
        KeepBoth(numeric[d + 1..], IsNumeric, NotSeparator);
      }
      assert All(r, IsNumeric);
      assert r != "" ==> IsNumeric(r[0]) && IsNumeric(r[|r| - 1]);
      TrimFixed(r);
    }
  }

  // ---- renderings of an amount ----

  function Digit(d: nat): char
    requires d < 10
  {
    (d + '0' as int) as char
  }

  function Digits(n: nat): (s: string)
    ensures s != "" && All(s, IsDigit)
  {
    if n < 10 then [Digit(n)] else Digits(n / 10) + [Digit(n % 10)]
  }

  function Pad2(n: nat): string
    requires n < 100
  {
    [Digit(n / 10), Digit(n % 10)]
  }

  function Pad3(n: nat): string
    requires n < 1000
  {
    [Digit(n / 100), Digit(n / 10 % 10), Digit(n % 10)]
  }

  /** Groups of three digits. */
  function Grouped(n: nat, separator: char): string {
    if n < 1000 then Digits(n) else Grouped(n / 1000, separator) + [separator] + Pad3(n % 1000)
  }

  function Brazilian(cents: nat): string { "R$ " + Grouped(cents / 100, '.') + "," + Pad2(cents % 100) }

  function International(cents: nat): string { "R$ " + Grouped(cents / 100, ',') + "." + Pad2(cents % 100) }

  function Plain(cents: nat): string { Digits(cents / 100) + "." + Pad2(cents % 100) }

  lemma Decimals(n: nat)
    ensures n / 10 / 10 == n / 100 && n / 100 / 10 == n / 1000
    ensures n / 100 % 10 == n % 1000 / 100 && n / 10 % 10 == n % 1000 / 10 % 10 && n % 10 == n % 1000 % 10
  {
  }

  lemma DigitsSplit(n: nat)
    requires n >= 1000
    ensures Digits(n) == Digits(n / 1000) + Pad3(n % 1000)
  {
    Decimals(n);
    assert Digits(n) == Digits(n / 10) + [Digit(n % 10)];
    assert Digits(n / 10) == Digits(n / 100) + [Digit(n / 10 % 10)];
    assert Digits(n / 100) == Digits(n / 1000) + [Digit(n / 100 % 10)];
  }

  lemma {:induction false} GroupedDigits(n: nat, separator: char)
    requires IsSeparator(separator)
    ensures All(Grouped(n, separator), IsNumeric)
    ensures Keep(Grouped(n, separator), NotSeparator) == Digits(n)
  {
    hide Keep, Digits;
    if n < 1000 {
      KeepAll(Digits(n), NotSeparator);
    } else {
      GroupedDigits(n / 1000, separator);
      DigitsSplit(n);
      KeepGroup(Grouped(n / 1000, separator), separator, n % 1000);
    }
  }

  lemma KeepGroup(head: string, separator: char, group: nat)
    requires IsSeparator(separator) && group < 1000
    ensures Keep(head + [separator] + Pad3(group), NotSeparator) == Keep(head, NotSeparator) + Pad3(group)
  {
    hide Keep;
    KeepSeparator(separator);
    KeepConcat(head + [separator], Pad3(group), NotSeparator);
    KeepConcat(head, [separator], NotSeparator);
    KeepAll(Pad3(group), NotSeparator);
    assert Keep(head, NotSeparator) + "" == Keep(head, NotSeparator);
  }

  lemma KeepSeparator(c: char)
    requires IsSeparator(c)
    ensures Keep([c], NotSeparator) == ""
  {
    KeepNone([c], NotSeparator);
  }

  lemma PrefixStripped()
    ensures Keep("R$ ", IsNumeric) == ""
  {
    KeepNone("R$ ", IsNumeric);
  }

  lemma CurrencyPrefix(s: string)
    requires All(s, IsNumeric) && s != ""
    ensures Normalize("R$ " + s) == Normalize(s)
  {
    hide Keep, DecimalIndex, LastIndex;
    PrefixStripped();
    KeepConcat("R$ ", s, IsNumeric);
    KeepAll(s, IsNumeric);
    assert Keep("R$ " + s, IsNumeric) == "" + s == s;
  }

  lemma RenderingNormalises(cents: nat, group: char, decimal: char)
    requires IsSeparator(group) && IsSeparator(decimal)
    ensures Normalize("R$ " + Grouped(cents / 100, group) + [decimal] + Pad2(cents % 100)) == Plain(cents)
  {
    hide Keep, Grouped, Digits, Normalize;
    var whole, fraction := Grouped(cents / 100, group), Pad2(cents % 100);
    GroupedDigits(cents / 100, group);
    NormalizeSplit(whole, decimal, fraction);
    AllConcat(whole, [decimal], IsNumeric);
    AllConcat(whole + [decimal], fraction, IsNumeric);
    CurrencyPrefix(whole + [decimal] + fraction);
    assert "R$ " + whole + [decimal] + fraction == "R$ " + (whole + [decimal] + fraction);
  }

  /** Both layouts of every amount normalise to the same plain decimal. */
  lemma LayoutsAgree(cents: nat)
    ensures Normalize(Brazilian(cents)) == Plain(cents) == Normalize(International(cents))
  {
    RenderingNormalises(cents, '.', ',');
    RenderingNormalises(cents, ',', '.');
  }

  /** The decimal a plain rendering stands for. */
  function ValueOf(digits: string): nat
    requires All(digits, IsDigit)
  {
    if digits == "" then 0 else 10 * ValueOf(digits[..|digits| - 1]) + (digits[|digits| - 1] as int - '0' as int)
  }

  lemma {:induction false} DigitsValue(n: nat)
    ensures ValueOf(Digits(n)) == n
  {
    if n >= 10 {
      DigitsValue(n / 10);
      assert Digits(n)[..|Digits(n)| - 1] == Digits(n / 10);
    } else {
      assert Digits(n)[..0] == "";
    }
  }

  /** Reading the plain decimal's digits gives the amount back, so no two amounts share a rendering. */
  lemma PlainValue(cents: nat)
    ensures ValueOf(Digits(cents / 100) + Pad2(cents % 100)) == cents
  {
    var whole, s := Digits(cents / 100), Digits(cents / 100) + Pad2(cents % 100);
    DigitsValue(cents / 100);
    var n := |s|;
    assert s[..n - 1][..n - 2] == whole;
    assert s[n - 1] == Digit(cents % 100 % 10) && s[..n - 1][n - 2] == Digit(cents % 100 / 10);
  }

  // ---- every input ----

  lemma NumericCharacters(c: char)
    ensures IsNumeric(c) <==> '0' <= c <= '9' || c in {',', '.', '-'}
    ensures IsSeparator(c) <==> c in {',', '.'}
  {
  }

  /**
   Every input, by its numeric characters: without any it stays; up to two of them behind the last separator are decimals;
   otherwise all separators go.
   */
  lemma NormalizeExactly(value: string, whole: string, c: char, fraction: string)
    ensures Keep(value, IsNumeric) == "" ==> Normalize(value) == value
    ensures Keep(value, IsNumeric) != "" && All(Keep(value, IsNumeric), NotSeparator) ==> Normalize(value) == Keep(value, IsNumeric)
    ensures Keep(value, IsNumeric) == whole + [c] + fraction && IsSeparator(c) && All(fraction, NotSeparator) ==>
              Normalize(value) == Keep(whole, NotSeparator) + (if |fraction| <= 2 then "." else "") + fraction
  {
    var numeric := Keep(value, IsNumeric);
    if All(numeric, NotSeparator) {
      DecimalIndexNone(numeric);
      KeepAll(numeric, NotSeparator);
    }
    if numeric == whole + [c] + fraction && IsSeparator(c) && All(fraction, NotSeparator) {
      DecimalIndexAt(whole, c, fraction);
      assert numeric[..|whole|] == whole && numeric[|whole| + 1..] == fraction;
      KeepAll(fraction, NotSeparator);
      KeepConcat(whole + [c], fraction, NotSeparator);
      KeepConcat(whole, [c], NotSeparator);
      KeepSeparator(c);
      assert Keep(whole, NotSeparator) + "" == Keep(whole, NotSeparator);
    }
    hide Keep, DecimalIndex;
  }
}
