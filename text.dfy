/**
 * The string operations the application applies to identifiers, names and labels:
 * decimal formatting (String(n)), padStart(2, '0'), parseInt, splitting on '-', trim
 * and ASCII case mapping.
 */
module Text {
  import opened Wrappers

  predicate IsDigit(c: char)
  {
    '0' <= c <= '9'
  }

  predicate AllDigits(s: string)
  {
    forall i :: 0 <= i < |s| ==> IsDigit(s[i])
  }

  function DigitChar(d: nat): (c: char)
    requires d < 10
    ensures IsDigit(c) && c as int - '0' as int == d
  {
    ['0', '1', '2', '3', '4', '5', '6', '7', '8', '9'][d]
  }

  /** Decimal digits of n without leading zeros, as String(n) gives them. */
  function NatToString(n: nat): (s: string)
    ensures |s| >= 1 && AllDigits(s)
    decreases n
  {
    if n < 10 then [DigitChar(n)] else NatToString(n / 10) + [DigitChar(n % 10)]
  }

  /** String(n) for any integer n. */
  function IntToString(n: int): string
  {
    if n < 0 then "-" + NatToString(-n) else NatToString(n)
  }

  /** The value of a string of decimal digits (Number(s) on such a string). */
  function DigitsValue(s: string): nat
    requires AllDigits(s)
  {
    if s == [] then 0 else DigitsValue(s[..|s| - 1]) * 10 + (s[|s| - 1] as int - '0' as int)
  }

  /** Reading back the digits that String(n) writes gives n. */
  lemma {:induction false} DigitsValueOfNatToString(n: nat)
    ensures DigitsValue(NatToString(n)) == n
    decreases n
  {
    var s := NatToString(n);
    if n >= 10 {
      DigitsValueOfNatToString(n / 10);
      assert s[..|s| - 1] == NatToString(n / 10);
    } else {
      assert s[..|s| - 1] == [];
    }
  }

  /** A digit string without a leading zero has a positive value. */
  lemma {:induction false} DigitsValuePositive(d: string)
    requires AllDigits(d) && d != [] && d[0] != '0'
    ensures DigitsValue(d) >= 1
    decreases |d|
  {
    if |d| > 1 {
      DigitsValuePositive(d[..|d| - 1]);
    }
  }

  /** Writing out the value of a digit string without a leading zero gives the string back. */
  lemma {:induction false} NatToStringOfDigits(d: string)
    requires AllDigits(d) && d != [] && d[0] != '0'
    ensures NatToString(DigitsValue(d)) == d
    decreases |d|
  {
    var v := DigitsValue(d);
    var last := d[|d| - 1];
    if |d| == 1 {
      assert d[..|d| - 1] == [];
      assert DigitsValue(d[..|d| - 1]) == 0;
      assert v == last as int - '0' as int;
      assert DigitChar(v) == last;
    } else {
      var init := d[..|d| - 1];
      DigitsValuePositive(init);
      NatToStringOfDigits(init);
      assert v / 10 == DigitsValue(init);
      assert DigitChar(v % 10) == last;
      assert d == init + [last];
    }
  }

  function DigitAt(s: string, i: nat): int
    requires i < |s|
  {
    s[i] as int - '0' as int
  }

  lemma FourDigitsValue(d: string)
    requires AllDigits(d) && |d| == 4
    ensures DigitsValue(d) == DigitAt(d, 0) * 1000 + DigitAt(d, 1) * 100 + DigitAt(d, 2) * 10 + DigitAt(d, 3)
  {
    assert d[..3][..2] == d[..2];
    assert d[..2][..1] == d[..1];
    assert d[..1][..0] == [];
    assert DigitsValue(d[..1]) == DigitAt(d, 0);
    assert DigitsValue(d[..2]) == DigitsValue(d[..1]) * 10 + DigitAt(d, 1);
    assert DigitsValue(d[..3]) == DigitsValue(d[..2]) * 10 + DigitAt(d, 2);
    assert DigitsValue(d) == DigitsValue(d[..3]) * 10 + DigitAt(d, 3);
  }

  lemma TwoDigitsValue(d: string)
    requires AllDigits(d) && |d| == 2
    ensures DigitsValue(d) == DigitAt(d, 0) * 10 + DigitAt(d, 1)
  {
    assert d[..1][..0] == [];
    assert DigitsValue(d[..1]) == DigitAt(d, 0);
    assert DigitsValue(d) == DigitsValue(d[..1]) * 10 + DigitAt(d, 1);
  }

  /** String(n) has four characters exactly for the four-digit numbers. */
  lemma NatToStringLength(n: nat)
    ensures 1 <= n < 10 ==> |NatToString(n)| == 1
    ensures 10 <= n < 100 ==> |NatToString(n)| == 2
    ensures 1000 <= n < 10000 ==> |NatToString(n)| == 4
  {
    if 1000 <= n < 10000 {
      assert |NatToString(n / 10)| == 3 by {
        assert |NatToString(n / 100)| == 2 by {
          assert 10 <= n / 100 < 100;
          assert |NatToString(n / 1000)| == 1;
          assert n / 100 / 10 == n / 1000;
        }
        assert n / 10 / 10 == n / 100;
      }
    }
  }

  /** s.padStart(2, '0'). */
  function PadStart2(s: string): (r: string)
    ensures |s| >= 2 ==> r == s
    ensures |s| < 2 ==> |r| == 2 && r[2 - |s|..] == s && forall i :: 0 <= i < 2 - |s| ==> r[i] == '0'
  {
    if |s| >= 2 then s else seq(2 - |s|, _ => '0') + s
  }

  /** A number below 100 written with padStart(2, '0') is two digits worth that number. */
  lemma PaddedValue(n: nat)
    requires n < 100
    ensures |PadStart2(NatToString(n))| == 2 && AllDigits(PadStart2(NatToString(n)))
    ensures DigitsValue(PadStart2(NatToString(n))) == n
  {
    var s := NatToString(n);
    DigitsValueOfNatToString(n);
    var p := PadStart2(s);
    if n < 10 {
      assert p == ['0', DigitChar(n)];
      assert p[..1] == ['0'];
      assert p[..1][..0] == [];
    } else {
      NatToStringLength(n);
    }
  }

  /** The longest prefix of s made of decimal digits. */
  function DigitPrefix(s: string): (p: string)
    ensures AllDigits(p) && |p| <= |s| && p == s[..|p|]
    ensures |p| < |s| ==> !IsDigit(s[|p|])
  {
    if s == [] || !IsDigit(s[0]) then [] else [s[0]] + DigitPrefix(s[1..])
  }

  /**
   * parseInt(s, 10): leading white space is skipped, then an optional sign and the longest
   * run of digits after it are read; no digits at all gives NaN, here None.
   */
  function ParseInt(s: string): (r: Option<int>)
    ensures AllDigits(s) && s != [] ==> r == Some(DigitsValue(s))
  {
    var t := TrimStart(s);
    var neg := |t| > 0 && t[0] == '-';
    var body := if |t| > 0 && (t[0] == '-' || t[0] == '+') then t[1..] else t;
    var p := DigitPrefix(body);
    if AllDigits(s) && s != [] then
      assert !IsSpace(s[0]) by { assert IsDigit(s[0]); }
      assert t == s;
      assert p == s by { DigitPrefixOfDigits(s); }
      Some(DigitsValue(s))
    else if p == [] then None
    else if neg then Some(0 - DigitsValue(p) as int)
    else Some(DigitsValue(p))
  }

  lemma {:induction false} DigitPrefixOfDigits(s: string)
    requires AllDigits(s)
    ensures DigitPrefix(s) == s
    decreases |s|
  {
    if s != [] {
      DigitPrefixOfDigits(s[1..]);
    }
  }

  /** The position of the first occurrence of c in s, or |s| when there is none. */
  function IndexOf(s: string, c: char): (i: nat)
    ensures i <= |s| && c !in s[..i] && (i < |s| ==> s[i] == c)
  {
    if s == [] then 0 else if s[0] == c then 0 else 1 + IndexOf(s[1..], c)
  }

  /** s.split(sep) for a one-character separator. */
  function Split(s: string, sep: char): (parts: seq<string>)
    ensures |parts| >= 1
    ensures sep !in s ==> parts == [s]
    decreases |s|
  {
    var i := IndexOf(s, sep);
    if i == |s| then
      assert s[..i] == s;
      [s]
    else [s[..i]] + Split(s[i + 1..], sep)
  }

  /** Splitting a + [sep] + b where a holds no separator gives a, then the parts of b. */
  lemma SplitAt(a: string, sep: char, b: string)
    requires sep !in a
    ensures Split(a + [sep] + b, sep) == [a] + Split(b, sep)
  {
    var s := a + [sep] + b;
    var i := IndexOf(s, sep);
    assert s[|a|] == sep;
    assert forall j :: 0 <= j < |a| ==> s[j] == a[j] && s[j] != sep;
    assert i == |a|;
    assert s[..i] == a;
    assert s[i + 1..] == b;
  }

  /** parts.join(sep) for a one-character separator and at least one part. */
  function Join(parts: seq<string>, sep: char): string
    requires |parts| >= 1
  {
    if |parts| == 1 then parts[0] else parts[0] + [sep] + Join(parts[1..], sep)
  }

  /** Splitting a join of parts that hold no separator gives the parts back. */
  lemma {:induction false} SplitJoin(parts: seq<string>, sep: char)
    requires |parts| >= 1
    requires forall i :: 0 <= i < |parts| ==> sep !in parts[i]
    ensures Split(Join(parts, sep), sep) == parts
    decreases |parts|
  {
    if |parts| > 1 {
      SplitJoin(parts[1..], sep);
      SplitAt(parts[0], sep, Join(parts[1..], sep));
      assert parts == [parts[0]] + parts[1..];
    }
  }

  /** The characters String.prototype.trim removes that this model knows: ASCII white space. */
  predicate IsSpace(c: char)
  {
    c == ' ' || c == '\t' || c == '\n' || c == '\r' || c == '\U{B}' || c == '\U{C}'
  }

  function TrimStart(s: string): (r: string)
    ensures |r| <= |s| && r == s[|s| - |r|..]
    ensures r == [] || !IsSpace(r[0])
    ensures forall i :: 0 <= i < |s| - |r| ==> IsSpace(s[i])
  {
    if s != [] && IsSpace(s[0]) then TrimStart(s[1..]) else s
  }

  function TrimEnd(s: string): (r: string)
    ensures |r| <= |s| && r == s[..|r|]
    ensures r == [] || !IsSpace(r[|r| - 1])
    ensures forall i :: |r| <= i < |s| ==> IsSpace(s[i])
  {
    if s != [] && IsSpace(s[|s| - 1]) then TrimEnd(s[..|s| - 1]) else s
  }

  /** s.trim(): the text with leading and trailing white space removed. */
  function Trim(s: string): (r: string)
    ensures |r| <= |s|
    ensures r == [] || (!IsSpace(r[0]) && !IsSpace(r[|r| - 1]))
  {
    TrimEnd(TrimStart(s))
  }

  /** Nothing but white space. */
  predicate AllSpace(s: string)
  {
    forall i :: 0 <= i < |s| ==> IsSpace(s[i])
  }

  /** s.trim() is the empty string, the falsy one, exactly when s is all white space. */
  lemma TrimEmpty(s: string)
    ensures Trim(s) == [] <==> AllSpace(s)
  {
    var t := TrimStart(s);
    if t != [] {
      assert s[|s| - |t|] == t[0];
    }
    assert forall i :: |s| - |t| <= i < |s| ==> s[i] == t[i - (|s| - |t|)];
  }

  /** A trimmed string trims to itself. */
  lemma TrimIdempotent(s: string)
    ensures Trim(Trim(s)) == Trim(s)
  {
    var r := Trim(s);
    if r != [] {
      assert TrimStart(r) == r;
      assert TrimEnd(r) == r;
    }
  }

  function LowerChar(c: char): char
  {
    if 'A' <= c <= 'Z' then (c as int + 32) as char else c
  }

  function UpperChar(c: char): char
  {
    if 'a' <= c <= 'z' then (c as int - 32) as char else c
  }

  /** s.toLowerCase() on the ASCII letters. */
  function ToLower(s: string): (r: string)
    ensures |r| == |s| && forall i :: 0 <= i < |s| ==> r[i] == LowerChar(s[i])
  {
    seq(|s|, i requires 0 <= i < |s| => LowerChar(s[i]))
  }

  /** s.toUpperCase() on the ASCII letters. */
  function ToUpper(s: string): (r: string)
    ensures |r| == |s| && forall i :: 0 <= i < |s| ==> r[i] == UpperChar(s[i])
  {
    seq(|s|, i requires 0 <= i < |s| => UpperChar(s[i]))
  }

  /** s.startsWith(p). */
  predicate StartsWith(s: string, p: string)
  {
    |p| <= |s| && s[..|p|] == p
  }
}
