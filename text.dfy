/** Decimal rendering of integers, as Rust's `Display` for integers and
    JavaScript's number-to-string conversion produce it for whole numbers,
    together with the parsers that invert it. */
module Text {

  predicate IsDigit(c: char) {
    '0' <= c <= '9'
  }

  predicate AllDigits(s: string) {
    forall i :: 0 <= i < |s| ==> IsDigit(s[i])
  }

  function DigitChar(d: nat): (c: char)
    requires d < 10
    ensures IsDigit(c)
    ensures c as int - '0' as int == d
  {
    ('0' as int + d) as char
  }

  function DigitValue(c: char): (d: nat)
    requires IsDigit(c)
    ensures d < 10
  {
    c as int - '0' as int
  }

  /** The digits of `n` in base 10, most significant first, without leading zeros. */
  function NatToString(n: nat): (s: string)
    ensures 1 <= |s|
    ensures AllDigits(s)
    ensures |s| > 1 ==> s[0] != '0'
    ensures n < 10 <==> |s| == 1
    decreases n
  {
    if n < 10 then [DigitChar(n)] else NatToString(n / 10) + [DigitChar(n % 10)]
  }

  /** The value of a string of decimal digits; the empty string reads as 0. */
  function ParseNat(s: string): nat
    requires AllDigits(s)
  {
    if |s| == 0 then 0 else ParseNat(s[..|s| - 1]) * 10 + DigitValue(s[|s| - 1])
  }

  /** Reading back a rendered number gives the number. */
  lemma {:induction false} ParseNatToString(n: nat)
    ensures ParseNat(NatToString(n)) == n
    decreases n
  {
    var s := NatToString(n);
    if n >= 10 {
      ParseNatToString(n / 10);
      assert s[..|s| - 1] == NatToString(n / 10);
    }
  }

  /** Rendering is injective: distinct numbers have distinct renderings. */
  lemma NatToStringInjective(m: nat, n: nat)
    requires NatToString(m) == NatToString(n)
    ensures m == n
  {
    ParseNatToString(m);
    ParseNatToString(n);
  }

  /** The text of a number as it is printed: at least one digit, and no
      leading zero unless the number is 0 itself. */
  predicate IsNatText(s: string) {
    1 <= |s| && AllDigits(s) && (|s| > 1 ==> s[0] != '0')
  }

  /** A text of digits that does not start with '0' is not the number 0. */
  lemma {:induction false} ParseNatPositive(s: string)
    requires 1 <= |s| && AllDigits(s) && s[0] != '0'
    ensures ParseNat(s) >= 1
    decreases |s|
  {
    if |s| > 1 {
      var front := s[..|s| - 1];
      assert front[0] == s[0];
      ParseNatPositive(front);
    }
  }

  /** A printed number is the only printed text of its value: rendering
      the value read from it gives the same text back. */
  lemma {:induction false} NatTextCanonical(s: string)
    requires IsNatText(s)
    ensures NatToString(ParseNat(s)) == s
    decreases |s|
  {
    var n := ParseNat(s);
    if |s| == 1 {
      assert s[..0] == [];
      assert ParseNat(s[..0]) == 0;
      assert n == DigitValue(s[0]);
      assert NatToString(n) == [DigitChar(n)];
    } else {
      var front := s[..|s| - 1];
      assert front[0] == s[0];
      ParseNatPositive(front);
      NatTextCanonical(front);
      var d := DigitValue(s[|s| - 1]);
      assert n == ParseNat(front) * 10 + d;
      assert n / 10 == ParseNat(front) && n % 10 == d;
      assert NatToString(n) == NatToString(n / 10) + [DigitChar(n % 10)];
      assert s == front + [s[|s| - 1]];
    }
  }

  /** Signed rendering: a leading '-' for negative numbers. */
  function IntToString(i: int): (s: string)
    ensures 1 <= |s|
    ensures i < 0 <==> s[0] == '-'
    ensures IsIntText(s)
  {
    if i < 0 then
      var digits := NatToString(-i);
      assert digits != "0";
      assert ("-" + digits)[1..] == digits;
      "-" + digits
    else NatToString(i)
  }

  /** The text of a signed number as it is printed: an optional '-' before
      the digits of a non-zero magnitude. */
  predicate IsIntText(s: string) {
    if 0 < |s| && s[0] == '-' then IsNatText(s[1..]) && s[1..] != "0" else IsNatText(s)
  }

  function ParseInt(s: string): int
    requires IsIntText(s)
  {
    var magnitude: int := if 0 < |s| && s[0] == '-' then ParseNat(s[1..]) else ParseNat(s);
    if 0 < |s| && s[0] == '-' then -magnitude else magnitude
  }

  lemma IntToStringRoundTrip(i: int)
    ensures ParseInt(IntToString(i)) == i
  {
    var s := IntToString(i);
    if i < 0 {
      var digits := NatToString(-i);
      assert s == "-" + digits;
      assert s[1..] == digits;
      ParseNatToString(-i);
      assert ParseInt(s) == 0 - ParseNat(digits) as int;
    } else {
      ParseNatToString(i);
      assert s == NatToString(i);
      assert s[0] != '-';
    }
  }

  /** A printed signed number is the only printed text of its value. */
  lemma IntTextCanonical(s: string)
    requires IsIntText(s)
    ensures IntToString(ParseInt(s)) == s
  {
    if s[0] == '-' {
      var digits := s[1..];
      NatTextCanonical(digits);
      assert digits[0] != '0' by {
        if |digits| == 1 { assert digits == [digits[0]]; }
      }
      ParseNatPositive(digits);
      assert ParseInt(s) == 0 - ParseNat(digits) as int;
      assert s == "-" + digits;
    } else {
      NatTextCanonical(s);
    }
  }

  /** Two digits with a leading zero, as the `{:02}` format renders a number below 100. */
  function ZeroPad2(n: nat): (s: string)
    requires n < 100
    ensures |s| == 2 && AllDigits(s)
    ensures ParseNat(s) == n
  {
    var s := [DigitChar(n / 10), DigitChar(n % 10)];
    assert s[..1] == [DigitChar(n / 10)];
    assert s[..1][..0] == [];
    assert ParseNat(s[..1]) == n / 10;
    s
  }

  /** Two digits are the padded text of their value and of nothing else. */
  lemma ZeroPad2Canonical(s: string)
    requires |s| == 2 && AllDigits(s)
    ensures ParseNat(s) < 100 && ZeroPad2(ParseNat(s)) == s
  {
    assert s[..1][..0] == [];
    var d0, d1 := DigitValue(s[0]), DigitValue(s[1]);
    assert s[..1][0] == s[0];
    assert ParseNat(s[..1]) == d0;
    assert ParseNat(s) == d0 * 10 + d1;
    assert ZeroPad2(ParseNat(s)) == [DigitChar(d0), DigitChar(d1)];
  }

  /** The text has no occurrence of a non-digit character. */
  lemma DigitsAvoid(s: string, c: char)
    requires AllDigits(s)
    requires !IsDigit(c)
    ensures c !in s
  {
    assert forall i :: 0 <= i < |s| ==> s[i] != c;
  }

  /** `s` cut at every `sep`, as JavaScript's `String.prototype.split` does
      with a one-character separator: there is always at least one part, and
      the empty string gives one empty part. */
  function Split(s: string, sep: char): (parts: seq<string>)
    ensures 1 <= |parts|
    ensures forall i :: 0 <= i < |parts| ==> sep !in parts[i]
    ensures Join(parts, sep) == s
    decreases |s|
  {
    if |s| == 0 then [""]
    else
      var rest := Split(s[1..], sep);
      if s[0] == sep then
        assert ([""] + rest)[1..] == rest;
        [""] + rest
      else
        var parts := [[s[0]] + rest[0]] + rest[1..];
        assert parts[1..] == rest[1..];
        assert s == [s[0]] + s[1..];
        parts
  }

  /** The parts glued back together with `sep` between neighbours. */
  function Join(parts: seq<string>, sep: char): string
    requires 1 <= |parts|
  {
    if |parts| == 1 then parts[0] else parts[0] + [sep] + Join(parts[1..], sep)
  }

  lemma JoinTwo(parts: seq<string>, sep: char)
    requires |parts| == 2
    ensures Join(parts, sep) == parts[0] + [sep] + parts[1]
  {
    assert parts[1..] == [parts[1]];
  }

  lemma {:induction false} SplitWithoutSeparator(s: string, sep: char)
    requires sep !in s
    ensures Split(s, sep) == [s]
    decreases |s|
  {
    if |s| > 0 {
      assert sep !in s[1..] by {
        forall i | 0 <= i < |s[1..]| ensures s[1..][i] != sep { assert s[1..][i] == s[i + 1]; }
      }
      SplitWithoutSeparator(s[1..], sep);
      assert [s[0]] + s[1..] == s;
    }
  }

  /** Splitting at the first separator peels off the text before it. */
  lemma {:induction false} SplitAtFirst(a: string, sep: char, b: string)
    requires sep !in a
    ensures Split(a + [sep] + b, sep) == [a] + Split(b, sep)
    decreases |a|
  {
    var s := a + [sep] + b;
    if |a| == 0 {
      assert s == [sep] + b;
      assert s[1..] == b;
    } else {
      assert s[1..] == a[1..] + [sep] + b;
      assert sep !in a[1..] by {
        forall i | 0 <= i < |a[1..]| ensures a[1..][i] != sep { assert a[1..][i] == a[i + 1]; }
      }
      SplitAtFirst(a[1..], sep, b);
      assert [a[0]] + a[1..] == a;
    }
  }
}
