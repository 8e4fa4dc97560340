/**
 Small string utilities the model is built from: searching for a single
 character, cutting a line at a separator, the character class `\w` of Go's
 regular expressions, and decimal rendering and reading of integers (the
 `%d` verb of Go's fmt package).

 Go strings are byte strings; the model works on `seq<char>`. Every
 separator the modelled code searches for is ASCII, so the positions it
 finds delimit the same substrings in either view.
 */
module Text {
  import opened Wrappers

  /** Position of the first occurrence of `c` in `s`, as `strings.Index` for a one-character needle. */
  function IndexOf(s: string, c: char): (r: Option<nat>)
    ensures r.None? <==> c !in s
    ensures r.Some? ==> r.value < |s| && s[r.value] == c
  {
    if |s| == 0 then None
    else if s[0] == c then Some(0)
    else
      match IndexOf(s[1..], c)
      case None => None
      case Some(i) => Some(i + 1)
  }

  /** Position of the last occurrence of `c` in `s`. */
  function LastIndexOf(s: string, c: char): (r: Option<nat>)
    ensures r.None? <==> c !in s
    ensures r.Some? ==> r.value < |s| && s[r.value] == c
  {
    if |s| == 0 then None
    else if s[|s| - 1] == c then Some(|s| - 1)
    else
      match LastIndexOf(s[..|s| - 1], c)
      case None => None
      case Some(i) => Some(i)
  }

  /** No position before the one `IndexOf` reports holds `c`. */
  lemma {:induction false} IndexOfFirst(s: string, c: char)
    ensures IndexOf(s, c).Some? ==> forall i :: 0 <= i < IndexOf(s, c).value ==> s[i] != c
  {
    if |s| > 0 && s[0] != c {
      IndexOfFirst(s[1..], c);
      forall i | 1 <= i < |s| && IndexOf(s, c).Some? && i < IndexOf(s, c).value
        ensures s[i] != c
      {
        assert s[i] == s[1..][i - 1];
      }
    }
  }

  /** A position holding `c` with no earlier `c` is the one `IndexOf` reports. */
  lemma {:induction false} IndexOfIs(s: string, c: char, k: nat)
    requires k < |s| && s[k] == c
    requires forall i :: 0 <= i < k ==> s[i] != c
    ensures IndexOf(s, c) == Some(k)
  {
    if k > 0 {
      IndexOfIs(s[1..], c, k - 1);
    }
  }

  /** A position holding `c` with no later `c` is the one `LastIndexOf` reports. */
  lemma {:induction false} LastIndexOfIs(s: string, c: char, k: nat)
    requires k < |s| && s[k] == c
    requires forall i :: k < i < |s| ==> s[i] != c
    ensures LastIndexOf(s, c) == Some(k)
    decreases |s|
  {
    if k < |s| - 1 {
      LastIndexOfIs(s[..|s| - 1], c, k);
    }
  }

  /** The first occurrence of `c` is found right after a prefix that does not contain it. */
  lemma IndexOfAfter(a: string, c: char, b: string)
    requires c !in a
    ensures IndexOf(a + [c] + b, c) == Some(|a|)
  {
    var s := a + [c] + b;
    assert forall i :: 0 <= i < |a| ==> s[i] == a[i];
    IndexOfIs(s, c, |a|);
  }

  /** The last occurrence of `c` is found right before a suffix that does not contain it. */
  lemma LastIndexOfBefore(a: string, c: char, b: string)
    requires c !in b
    ensures LastIndexOf(a + [c] + b, c) == Some(|a|)
  {
    var p := a + [c];
    var s := p + b;
    forall i | |p| <= i < |s|
      ensures s[i] != c
    {
      AppendIndex(p, b, i);
      assert b[i - |p|] in b;
    }
    LastIndexOfIs(s, c, |a|);
  }

  /** A prefix whose every position differs from `c` does not contain `c`. */
  lemma NotInPrefix<T>(s: seq<T>, c: T, k: nat)
    requires k <= |s|
    requires forall i :: 0 <= i < k ==> s[i] != c
    ensures c !in s[..k]
  {
    forall j | 0 <= j < k
      ensures s[..k][j] != c
    {
      assert s[..k][j] == s[j];
    }
  }

  /** A slice whose every position differs from `c` does not contain `c`. */
  lemma NotInSlice<T>(s: seq<T>, c: T, a: nat, b: nat)
    requires a <= b <= |s|
    requires forall i :: a <= i < b ==> s[i] != c
    ensures c !in s[a..b]
  {
    forall j | 0 <= j < b - a
      ensures s[a..b][j] != c
    {
      assert s[a..b][j] == s[a + j];
    }
  }

  /** Past its first part, a concatenation holds its second part. */
  lemma AppendIndex<T>(x: seq<T>, y: seq<T>, i: nat)
    requires |x| <= i < |x| + |y|
    ensures (x + y)[i] == y[i - |x|]
  {
  }

  /** A slice of a suffix is a slice of the whole. */
  lemma SliceOfSlice<T>(s: seq<T>, a: nat, b: nat, c: nat)
    requires a <= |s| && b <= c <= |s| - a
    ensures s[a..][b..c] == s[a + b..a + c]
  {
  }

  /** Splits `s` at its first space: the field before it and, if there was one, the text after it. */
  function Cut(s: string): (r: (string, Option<string>))
    ensures r.1.None? ==> r.0 == s && ' ' !in s
    ensures r.1.Some? ==> s == r.0 + " " + r.1.value && ' ' !in r.0
  {
    match IndexOf(s, ' ')
    case None => (s, None)
    case Some(i) =>
      IndexOfFirst(s, ' ');
      NotInPrefix(s, ' ', i);
      assert s == s[..i] + " " + s[i + 1..];
      (s[..i], Some(s[i + 1..]))
  }

  /** Cutting a space-free field followed by a space gives that field back, and the rest untouched. */
  lemma CutField(x: string, y: string)
    requires ' ' !in x
    ensures Cut(x + " " + y) == (x, Some(y))
  {
    IndexOfAfter(x, ' ', y);
    var s := x + " " + y;
    assert s[..|x|] == x;
    assert s[|x| + 1..] == y;
  }

  /** A space-free string is a single field with nothing after it. */
  lemma CutWhole(x: string)
    requires ' ' !in x
    ensures Cut(x) == (x, None)
  {
  }

  /** A character of the class `\w` of Go's regexp syntax: ASCII letters, digits and underscore. */
  predicate IsWordChar(c: char)
  {
    ('0' <= c <= '9') || ('A' <= c <= 'Z') || ('a' <= c <= 'z') || c == '_'
  }

  /** Every character of `s` belongs to `\w`. */
  predicate IsWord(s: string)
  {
    forall i :: 0 <= i < |s| ==> IsWordChar(s[i])
  }

  /** Length of the longest prefix of `s` made of `\w` characters. */
  function WordRun(s: string): (n: nat)
    ensures n <= |s|
    ensures IsWord(s[..n])
    ensures n < |s| ==> !IsWordChar(s[n])
  {
    if |s| == 0 || !IsWordChar(s[0]) then 0
    else
      var k := WordRun(s[1..]);
      assert s[..k + 1] == [s[0]] + s[1..][..k];
      1 + k
  }

  /** A word prefix that cannot be extended is the one `WordRun` measures. */
  lemma {:induction false} WordRunIs(s: string, n: nat)
    requires n <= |s| && IsWord(s[..n])
    requires n < |s| ==> !IsWordChar(s[n])
    ensures WordRun(s) == n
  {
    if n > 0 {
      assert IsWordChar(s[..n][0]);
      assert s[1..][..n - 1] == s[..n][1..];
      WordRunIs(s[1..], n - 1);
    }
  }

  /** A word followed by nothing or by a non-word character is exactly the longest word prefix. */
  lemma WordRunOf(w: string, rest: string)
    requires IsWord(w)
    requires |rest| == 0 || !IsWordChar(rest[0])
    ensures WordRun(w + rest) == |w|
  {
    var s := w + rest;
    assert s[..|w|] == w;
    WordRunIs(s, |w|);
  }

  predicate IsDigit(c: char)
  {
    '0' <= c <= '9'
  }

  predicate IsDigits(s: string)
  {
    forall i :: 0 <= i < |s| ==> IsDigit(s[i])
  }

  function DigitChar(d: nat): (c: char)
    requires d < 10
    ensures IsDigit(c)
  {
    ('0' as int + d) as char
  }

  function DigitValue(c: char): (d: nat)
    requires IsDigit(c)
    ensures d < 10
  {
    (c as int - '0' as int) as nat
  }

  lemma DigitValueOfChar(d: nat)
    requires d < 10
    ensures DigitValue(DigitChar(d)) == d
  {
  }

  lemma DigitCharOfValue(c: char)
    requires IsDigit(c)
    ensures DigitChar(DigitValue(c)) == c
  {
  }

  /** Decimal digits as `%d` writes them: at least one, and no leading zero unless the digit string is `0`. */
  predicate IsCanonicalDigits(s: string)
  {
    |s| > 0 && IsDigits(s) && (s[0] == '0' ==> |s| == 1)
  }

  /** Decimal digits of `n`, most significant first, without leading zeros. */
  function NatToDecimal(n: nat): (r: string)
    ensures IsCanonicalDigits(r)
    ensures r[0] == '0' ==> n == 0
  {
    if n < 10 then [DigitChar(n)]
    else NatToDecimal(n / 10) + [DigitChar(n % 10)]
  }

  /** Value of a string of decimal digits; the empty string reads as zero. */
  function DigitsValue(s: string): nat
    requires IsDigits(s)
  {
    if |s| == 0 then 0
    else DigitsValue(s[..|s| - 1]) * 10 + DigitValue(s[|s| - 1])
  }

  /** Reading back the digits `NatToDecimal` wrote gives the number. */
  lemma {:induction false} NatDecimalRoundTrip(n: nat)
    ensures DigitsValue(NatToDecimal(n)) == n
  {
    var r := NatToDecimal(n);
    if n < 10 {
      DigitValueOfChar(n);
    } else {
      NatDecimalRoundTrip(n / 10);
      DigitValueOfChar(n % 10);
      assert r[..|r| - 1] == NatToDecimal(n / 10);
    }
  }

  /** Digits that start with a non-zero digit have a positive value. */
  lemma {:induction false} LeadingDigitPositive(s: string)
    requires |s| > 0 && IsDigits(s) && s[0] != '0'
    ensures DigitsValue(s) > 0
  {
    if |s| > 1 {
      var p := s[..|s| - 1];
      assert p[0] == s[0];
      LeadingDigitPositive(p);
    }
  }

  /** Canonical digits are exactly what `NatToDecimal` writes for their value. */
  lemma {:induction false} NatDecimalCanonical(s: string)
    requires IsCanonicalDigits(s)
    ensures NatToDecimal(DigitsValue(s)) == s
  {
    var x := s[|s| - 1];
    DigitCharOfValue(x);
    if |s| == 1 {
      assert DigitsValue(s) == DigitsValue(s[..0]) * 10 + DigitValue(x);
    } else {
      var p := s[..|s| - 1];
      assert p[0] == s[0] && s[0] != '0';
      LeadingDigitPositive(p);
      NatDecimalCanonical(p);
      var v := DigitsValue(s);
      assert v == DigitsValue(p) * 10 + DigitValue(x);
      assert v / 10 == DigitsValue(p) && v % 10 == DigitValue(x);
      assert s == p + [x];
    }
  }

  /** Go's `%d` rendering of a signed integer: a minus sign, then the magnitude's digits. */
  function IntToDecimal(n: int): (r: string)
    ensures ':' !in r
  {
    if n < 0 then "-" + NatToDecimal(-n) else NatToDecimal(n)
  }

  /**
   Reads a decimal integer in the form `%d` writes: canonical digits,
   optionally after a minus sign that is followed by a non-zero digit.
   Anything else, `-0` and leading zeros included, is rejected.
   */
  function ParseDecimal(s: string): (r: Option<int>)
    ensures r.Some? ==> |s| > 0
  {
    if |s| > 0 && s[0] == '-' then
      var d := s[1..];
      if IsCanonicalDigits(d) && d[0] != '0' then (var v: int := DigitsValue(d); Some(-v)) else None
    else if IsCanonicalDigits(s) then Some(DigitsValue(s))
    else None
  }

  /** A minus sign followed by the digits of `-n` reads as `n`. */
  lemma ParseNegative(d: string, n: int)
    requires IsCanonicalDigits(d) && d[0] != '0' && DigitsValue(d) == -n
    ensures ParseDecimal("-" + d) == Some(n)
  {
    var s := "-" + d;
    assert s[0] == '-' && s[1..] == d;
  }

  /** A canonical digit string reads as its digit value. */
  lemma ParseDigits(d: string, n: int)
    requires IsCanonicalDigits(d) && DigitsValue(d) == n
    ensures ParseDecimal(d) == Some(n)
  {
    assert IsDigit(d[0]);
  }

  /** Every integer survives a rendering by `IntToDecimal` and a reading by `ParseDecimal`. */
  lemma {:induction false} IntDecimalRoundTrip(n: int)
    ensures ParseDecimal(IntToDecimal(n)) == Some(n)
  {
    if n < 0 {
      var m: nat := -n;
      var d := NatToDecimal(m);
      NatDecimalRoundTrip(m);
      assert d[0] != '0';
      ParseNegative(d, n);
      assert IntToDecimal(n) == "-" + d;
    } else {
      var d := NatToDecimal(n);
      NatDecimalRoundTrip(n);
      ParseDigits(d, n);
      assert IntToDecimal(n) == d;
    }
  }

  /**
   `ParseDecimal` accepts nothing but `%d` output: a string it reads as `n`
   is the rendering of `n`, so an address's port text is fixed by its value.
   */
  lemma DecimalCanonical(s: string, n: int)
    requires ParseDecimal(s) == Some(n)
    ensures s == IntToDecimal(n)
  {
    if s[0] == '-' {
      var d := s[1..];
      LeadingDigitPositive(d);
      NatDecimalCanonical(d);
      var m: nat := DigitsValue(d);
      assert n + m == 0 && n < 0;
      assert IntToDecimal(n) == "-" + NatToDecimal(m);
      assert s == "-" + d;
    } else {
      NatDecimalCanonical(s);
    }
  }
}
