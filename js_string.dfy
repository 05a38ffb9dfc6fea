/** The JavaScript string operations the front end relies on, over strings
    as sequences of characters: toLowerCase (ASCII letters only), includes,
    trim, parseInt with radix 10 and with no radix (hexadecimal after a
    0x or 0X prefix), Number.prototype.toString, split, join,
    padStart, replace with a one-character pattern, and the relational
    operator < on strings. */
module JsString {

  /** A JavaScript number as produced by parseInt: an integer or NaN. */
  datatype IntOrNaN = Int(value: int) | NaN

  // ---------------------------------------------------------------------
  // Characters

  /** The characters String.prototype.trim and parseInt skip: the
      ECMAScript WhiteSpace and LineTerminator code points. */
  predicate IsJsWhitespace(c: char)
  {
    c == ' ' || c == '\t' || c == '\n' || c == '\r'
    || c == '\U{000B}' || c == '\U{000C}' || c == '\U{00A0}' || c == '\U{1680}'
    || ('\U{2000}' <= c <= '\U{200A}')
    || c == '\U{2028}' || c == '\U{2029}' || c == '\U{202F}' || c == '\U{205F}'
    || c == '\U{3000}' || c == '\U{FEFF}'
  }

  predicate IsDigit(c: char)
  {
    '0' <= c <= '9'
  }

  predicate AllDigits(s: string)
  {
    forall i :: 0 <= i < |s| ==> IsDigit(s[i])
  }

  function DigitChar(d: nat): (c: char)
    requires d < 10
    ensures IsDigit(c)
  {
    ('0' as int + d) as char
  }

  function DigitValue(c: char): (d: nat)
    requires IsDigit(c)
    ensures d < 10 && DigitChar(d) == c
  {
    c as int - '0' as int
  }

  function LowerChar(c: char): char
  {
    if 'A' <= c <= 'Z' then (c as int + 32) as char else c
  }

  // ---------------------------------------------------------------------
  // toLowerCase, includes, trim

  /** String.prototype.toLowerCase, restricted to the ASCII letters. */
  function ToLower(s: string): (r: string)
    ensures |r| == |s|
    ensures forall i :: 0 <= i < |s| ==> r[i] == LowerChar(s[i])
  {
    if s == [] then [] else [LowerChar(s[0])] + ToLower(s[1..])
  }

  /** Lowering twice is lowering once, and a lowered string has no upper-case ASCII letter. */
  lemma {:induction false} ToLowerIdempotent(s: string)
    ensures ToLower(ToLower(s)) == ToLower(s)
    ensures forall i :: 0 <= i < |s| ==> !('A' <= ToLower(s)[i] <= 'Z')
  {
    var l := ToLower(s);
    var ll := ToLower(l);
    forall i | 0 <= i < |s| ensures ll[i] == l[i] && !('A' <= l[i] <= 'Z') {
      assert l[i] == LowerChar(s[i]);
      assert ll[i] == LowerChar(l[i]);
    }
    assert ll == l;
  }

  predicate StartsWith(s: string, prefix: string)
  {
    |prefix| <= |s| && s[..|prefix|] == prefix
  }

  /** A concatenation starts with its left part and continues with its right part. */
  lemma StartsWithConcat(a: string, x: string)
    ensures StartsWith(a + x, a) && (a + x)[|a|..] == x
  {
    assert (a + x)[..|a|] == a;
  }

  /** String.prototype.includes: sub occurs somewhere in s. */
  predicate Includes(s: string, sub: string)
    decreases |s|
  {
    StartsWith(s, sub) || (|s| > 0 && Includes(s[1..], sub))
  }

  /** sub occurs in s starting at position i. */
  predicate OccursAt(s: string, sub: string, i: int)
  {
    0 <= i <= |s| - |sub| && s[i..i + |sub|] == sub
  }

  /** includes holds exactly when sub is found at some position of s. */
  lemma {:induction false} IncludesIffOccurs(s: string, sub: string)
    ensures Includes(s, sub) <==> exists i :: OccursAt(s, sub, i)
    decreases |s|
  {
    if StartsWith(s, sub) {
      assert OccursAt(s, sub, 0);
    } else if |s| > 0 {
      IncludesIffOccurs(s[1..], sub);
      if exists i :: OccursAt(s, sub, i) {
        var i :| OccursAt(s, sub, i);
        assert i != 0;
        assert s[1..][i - 1..i - 1 + |sub|] == s[i..i + |sub|];
        assert OccursAt(s[1..], sub, i - 1);
      }
      if Includes(s[1..], sub) {
        var j :| OccursAt(s[1..], sub, j);
        assert s[j + 1..j + 1 + |sub|] == s[1..][j..j + |sub|];
        assert OccursAt(s, sub, j + 1);
      }
    }
  }

  /** Drops the leading JavaScript whitespace, as trimStart does. */
  function TrimStart(s: string): (r: string)
    ensures |r| <= |s| && r == s[|s| - |r|..]
    ensures r == [] || !IsJsWhitespace(r[0])
    ensures forall i :: 0 <= i < |s| - |r| ==> IsJsWhitespace(s[i])
  {
    if s != [] && IsJsWhitespace(s[0]) then TrimStart(s[1..]) else s
  }

  /** `!s.trim()`: the string is empty once its surrounding whitespace is
      trimmed, which happens exactly when trimming its start leaves nothing. */
  predicate IsBlank(s: string)
  {
    TrimStart(s) == []
  }

  /** A blank string is one made only of whitespace. */
  lemma BlankIffAllWhitespace(s: string)
    ensures IsBlank(s) <==> forall i :: 0 <= i < |s| ==> IsJsWhitespace(s[i])
  {
    if !IsBlank(s) {
      var r := TrimStart(s);
      assert s[|s| - |r|] == r[0];
    }
  }

  // ---------------------------------------------------------------------
  // Decimal digits: Number.prototype.toString and parseInt(_, 10)

  /** The decimal representation of a natural number, as toString() gives it. */
  function NatToString(n: nat): (r: string)
    ensures |r| >= 1 && AllDigits(r)
    ensures r[0] == '0' ==> n == 0
  {
    if n < 10 then [DigitChar(n)] else NatToString(n / 10) + [DigitChar(n % 10)]
  }

  /** The value of a string of decimal digits, most significant first. */
  function DigitsValue(ds: string): nat
    requires AllDigits(ds)
  {
    if ds == [] then 0 else DigitsValue(ds[..|ds| - 1]) * 10 + DigitValue(ds[|ds| - 1])
  }

  /** The longest prefix of s made of decimal digits. */
  function LeadingDigits(s: string): (r: string)
    ensures |r| <= |s| && r == s[..|r|] && AllDigits(r)
    ensures |r| < |s| ==> !IsDigit(s[|r|])
  {
    if s == [] || !IsDigit(s[0]) then [] else [s[0]] + LeadingDigits(s[1..])
  }

  /** parseInt(s, 10): skip leading whitespace, read an optional sign, then
      the longest run of decimal digits; NaN when that run is empty. */
  function ParseInt(s: string): IntOrNaN
  {
    ParseSigned(TrimStart(s))
  }

  /** The sign and the digits after the leading whitespace. */
  function ParseSigned(t: string): IntOrNaN
  {
    if t != [] && t[0] == '-' then Negate(ParseDigits(t[1..]))
    else if t != [] && t[0] == '+' then ParseDigits(t[1..])
    else ParseDigits(t)
  }

  /** The value of the leading run of digits, NaN when there is none. */
  function ParseDigits(body: string): IntOrNaN
  {
    var ds := LeadingDigits(body);
    if ds == [] then NaN else Int(DigitsValue(ds))
  }

  function Negate(v: IntOrNaN): IntOrNaN
  {
    match v
    case NaN => NaN
    case Int(m) => Int(-m)
  }

  /** Reading back the decimal representation of n gives n. */
  lemma {:induction false} DigitsValueOfNatToString(n: nat)
    ensures DigitsValue(NatToString(n)) == n
  {
    var r := NatToString(n);
    if n < 10 {
      assert r[..|r| - 1] == [];
    } else {
      DigitsValueOfNatToString(n / 10);
      assert r[..|r| - 1] == NatToString(n / 10);
    }
  }

  /** A digit string followed by something that does not start with a digit
      is exactly the leading-digit run. */
  lemma {:induction false} LeadingDigitsOfDigitsThen(ds: string, rest: string)
    requires AllDigits(ds)
    requires rest == [] || !IsDigit(rest[0])
    ensures LeadingDigits(ds + rest) == ds
  {
    if ds != [] {
      assert (ds + rest)[1..] == ds[1..] + rest;
      LeadingDigitsOfDigitsThen(ds[1..], rest);
    } else {
      assert ds + rest == rest;
    }
  }

  /** A non-empty digit string followed by something that does not start
      with a digit reads as the value of the digits. */
  lemma ParseIntOfDigitsThen(ds: string, rest: string)
    requires ds != [] && AllDigits(ds)
    requires rest == [] || !IsDigit(rest[0])
    ensures ParseInt(ds + rest) == Int(DigitsValue(ds))
  {
    var s := ds + rest;
    assert s[0] == ds[0] && IsDigit(s[0]);
    assert !IsJsWhitespace(s[0]) && s[0] != '-' && s[0] != '+';
    calc {
      ParseInt(s);
      { assert TrimStart(s) == s; }
      ParseSigned(s);
      ParseDigits(s);
      { LeadingDigitsOfDigitsThen(ds, rest); }
      Int(DigitsValue(ds));
    }
  }

  /** parseInt reads the decimal representation of n back as n, and stops at
      the first character that is not a digit ("25abc" reads as 25). */
  lemma ParseIntOfNatToString(n: nat, rest: string)
    requires rest == [] || !IsDigit(rest[0])
    ensures ParseInt(NatToString(n) + rest) == Int(n)
  {
    ParseIntOfDigitsThen(NatToString(n), rest);
    DigitsValueOfNatToString(n);
  }

  /** toString() of an integer: a minus sign before the digits of a negative
      one. It starts with a minus sign exactly for the negative integers, and
      parseInt reads it back as the integer. */
  function IntToString(i: int): (r: string)
    ensures |r| >= 1
    ensures r[0] == '-' <==> i < 0
    ensures ParseInt(r) == Int(i)
  {
    if i < 0 then
      ParseIntOfNegative(i);
      "-" + NatToString(-i)
    else
      ParseIntOfNatToString(i, []);
      assert NatToString(i) + [] == NatToString(i);
      NatToString(i)
  }

  /** parseInt reads a minus sign followed by the digits of -i as i. */
  lemma ParseIntOfNegative(i: int)
    requires i < 0
    ensures ParseInt("-" + NatToString(-i)) == Int(i)
  {
    ParseDigitsOfNatToString(-i);
    NegativeReading(NatToString(-i), i);
  }

  /** A minus sign before digits that read as -i reads as i. */
  lemma NegativeReading(t: string, i: int)
    requires ParseDigits(t) == Int(-i)
    ensures ParseInt("-" + t) == Int(i)
  {
    ParseIntMinus(t);
  }

  /** A leading minus sign negates what the digits after it read as. */
  lemma ParseIntMinus(t: string)
    ensures ParseInt("-" + t) == Negate(ParseDigits(t))
  {
    var s := "-" + t;
    assert s[0] == '-' && !IsJsWhitespace(s[0]);
    assert TrimStart(s) == s;
    assert s[1..] == t;
  }

  /** The digits of n read back as n. */
  lemma ParseDigitsOfNatToString(n: nat)
    ensures ParseDigits(NatToString(n)) == Int(n)
  {
    var d := NatToString(n);
    assert d + [] == d;
    LeadingDigitsOfDigitsThen(d, []);
    DigitsValueOfNatToString(n);
  }

  /** A string whose first character is neither whitespace, a sign nor a
      digit reads as NaN ("pokemon" is not a number). */
  lemma ParseIntNoLeadingDigit(s: string)
    requires s != [] && !IsJsWhitespace(s[0]) && !IsDigit(s[0]) && s[0] != '-' && s[0] != '+'
    ensures ParseInt(s) == NaN
  {
    assert TrimStart(s) == s;
  }

  /** The empty string reads as NaN. */
  lemma ParseIntEmpty()
    ensures ParseInt("") == NaN
  {
  }

  // ---------------------------------------------------------------------
  // parseInt without a radix

  predicate IsHexDigit(c: char)
  {
    IsDigit(c) || 'a' <= c <= 'f' || 'A' <= c <= 'F'
  }

  predicate AllHexDigits(s: string)
  {
    forall i :: 0 <= i < |s| ==> IsHexDigit(s[i])
  }

  function HexDigitValue(c: char): (d: nat)
    requires IsHexDigit(c)
    ensures d < 16
  {
    if IsDigit(c) then DigitValue(c)
    else if 'a' <= c <= 'f' then c as int - 'a' as int + 10
    else c as int - 'A' as int + 10
  }

  /** The value of a string of hexadecimal digits, most significant first. */
  function HexValue(ds: string): nat
    requires AllHexDigits(ds)
  {
    if ds == [] then 0 else HexValue(ds[..|ds| - 1]) * 16 + HexDigitValue(ds[|ds| - 1])
  }

  /** The longest prefix of s made of hexadecimal digits. */
  function LeadingHexDigits(s: string): (r: string)
    ensures |r| <= |s| && r == s[..|r|] && AllHexDigits(r)
    ensures |r| < |s| ==> !IsHexDigit(s[|r|])
  {
    if s == [] || !IsHexDigit(s[0]) then [] else [s[0]] + LeadingHexDigits(s[1..])
  }

  /** "0x" or "0X": the prefix that makes parseInt without a radix read hexadecimal. */
  predicate HasHexPrefix(body: string)
  {
    |body| >= 2 && body[0] == '0' && (body[1] == 'x' || body[1] == 'X')
  }

  /** parseInt(s) with no radix: skip leading whitespace, read an optional
      sign, then hexadecimal digits after a "0x" or "0X" prefix and decimal
      digits otherwise; NaN when there are none. */
  function ParseIntAutoRadix(s: string): IntOrNaN
  {
    ParseSignedAutoRadix(TrimStart(s))
  }

  function ParseSignedAutoRadix(t: string): IntOrNaN
  {
    if t != [] && t[0] == '-' then Negate(ParseUnsignedAutoRadix(t[1..]))
    else if t != [] && t[0] == '+' then ParseUnsignedAutoRadix(t[1..])
    else ParseUnsignedAutoRadix(t)
  }

  function ParseUnsignedAutoRadix(body: string): IntOrNaN
  {
    if HasHexPrefix(body) then ParseHexDigits(body[2..]) else ParseDigits(body)
  }

  /** The value of the leading run of hexadecimal digits, NaN when there is none. */
  function ParseHexDigits(body: string): IntOrNaN
  {
    var ds := LeadingHexDigits(body);
    if ds == [] then NaN else Int(HexValue(ds))
  }

  /** The text after the leading whitespace and the sign. */
  function Unsigned(s: string): string
  {
    var t := TrimStart(s);
    if t != [] && (t[0] == '-' || t[0] == '+') then t[1..] else t
  }

  /** Without a radix parseInt reads like parseInt(s, 10) exactly when no
      "0x" prefix follows the sign; with one it reads the hexadecimal digits. */
  lemma AutoRadixAgreesWithDecimal(s: string)
    ensures !HasHexPrefix(Unsigned(s)) ==> ParseIntAutoRadix(s) == ParseInt(s)
    ensures HasHexPrefix(Unsigned(s)) ==>
              ParseIntAutoRadix(s) == (if TrimStart(s)[0] == '-' then Negate(ParseHexDigits(Unsigned(s)[2..]))
                                       else ParseHexDigits(Unsigned(s)[2..]))
  {
    var t := TrimStart(s);
    if t != [] && t[0] == '-' {
      assert ParseIntAutoRadix(s) == Negate(ParseUnsignedAutoRadix(t[1..]));
      assert ParseInt(s) == Negate(ParseDigits(t[1..]));
    } else if t != [] && t[0] == '+' {
      assert ParseIntAutoRadix(s) == ParseUnsignedAutoRadix(t[1..]);
      assert ParseInt(s) == ParseDigits(t[1..]);
    } else {
      assert ParseIntAutoRadix(s) == ParseUnsignedAutoRadix(t);
      assert ParseInt(s) == ParseDigits(t);
    }
  }

  /** A string of hexadecimal digits is its own leading hexadecimal run. */
  lemma {:induction false} LeadingHexDigitsOfAll(ds: string)
    requires AllHexDigits(ds)
    ensures LeadingHexDigits(ds) == ds
  {
    if ds != [] {
      LeadingHexDigitsOfAll(ds[1..]);
      assert ds == [ds[0]] + ds[1..];
    }
  }

  /** Without a radix, "0x" followed by hexadecimal digits reads as their value. */
  lemma AutoRadixReadsHex(ds: string)
    requires ds != [] && AllHexDigits(ds)
    ensures ParseIntAutoRadix("0x" + ds) == Int(HexValue(ds))
  {
    var s := "0x" + ds;
    assert s[0] == '0' && !IsJsWhitespace(s[0]);
    assert TrimStart(s) == s;
    assert HasHexPrefix(s) && s[2..] == ds;
    LeadingHexDigitsOfAll(ds);
    assert ParseSignedAutoRadix(s) == ParseUnsignedAutoRadix(s);
  }

  /** Without a radix, the decimal form of n, which never starts with "0x",
      reads as n. */
  lemma AutoRadixOfNatToString(n: nat)
    ensures ParseIntAutoRadix(NatToString(n)) == Int(n)
  {
    var d := NatToString(n);
    assert IsDigit(d[0]) && !IsJsWhitespace(d[0]) && d[0] != '-' && d[0] != '+';
    assert TrimStart(d) == d;
    assert Unsigned(d) == d;
    assert |d| >= 2 ==> IsDigit(d[1]);
    assert !HasHexPrefix(d);
    AutoRadixAgreesWithDecimal(d);
    ParseIntOfNatToString(n, []);
    assert d + [] == d;
  }

  /** Leading zeros do not change the value of a digit string. */
  lemma {:induction false} DigitsValueLeadingZeros(k: nat, ds: string)
    requires AllDigits(ds)
    ensures AllDigits(Repeat('0', k) + ds)
    ensures DigitsValue(Repeat('0', k) + ds) == DigitsValue(ds)
    decreases |ds|
  {
    var z := Repeat('0', k);
    if ds == [] {
      assert z + ds == z;
      ZerosValue(k);
    } else {
      var init := ds[..|ds| - 1];
      DigitsValueLeadingZeros(k, init);
      assert (z + ds)[..|z + ds| - 1] == z + init;
    }
  }

  lemma {:induction false} ZerosValue(k: nat)
    ensures AllDigits(Repeat('0', k))
    ensures DigitsValue(Repeat('0', k)) == 0
  {
    if k > 0 {
      ZerosValue(k - 1);
      var z, y := Repeat('0', k), Repeat('0', k - 1);
      assert z == y + ['0'];
      assert z[..k - 1] == y;
      assert DigitValue(z[k - 1]) == 0;
    }
  }

  // ---------------------------------------------------------------------
  // padStart

  /** k copies of c. */
  function Repeat(c: char, k: nat): (r: string)
    ensures |r| == k && forall i :: 0 <= i < k ==> r[i] == c
  {
    if k == 0 then [] else Repeat(c, k - 1) + [c]
  }

  /** String.prototype.padStart with a one-character pad: s itself when it
      already has targetLength characters, else s preceded by enough copies
      of fill to reach targetLength. */
  function PadStart(s: string, targetLength: nat, fill: char): (r: string)
    ensures |r| == if |s| < targetLength then targetLength else |s|
    ensures r[|r| - |s|..] == s
    ensures forall i :: 0 <= i < |r| - |s| ==> r[i] == fill
  {
    if |s| < targetLength then Repeat(fill, targetLength - |s|) + s else s
  }

  /** Padding digits with zeros leaves only digits. */
  lemma PaddedDigits(s: string, width: nat)
    requires AllDigits(s)
    ensures AllDigits(PadStart(s, width, '0'))
  {
    var r := PadStart(s, width, '0');
    var k := |r| - |s|;
    forall i | 0 <= i < |r| ensures IsDigit(r[i]) {
      if i >= k {
        assert r[i] == r[k..][i - k];
      }
    }
  }

  /** parseInt reads a zero-padded decimal representation back as n. */
  lemma ParseIntOfZeroPadded(n: nat, width: nat)
    ensures ParseInt(PadStart(NatToString(n), width, '0')) == Int(n)
  {
    var d := NatToString(n);
    var k: nat := if |d| < width then width - |d| else 0;
    PaddedIsZerosThen(d, width);
    ParseIntOfZerosThen(k, d);
    DigitsValueOfNatToString(n);
  }

  lemma ParseIntOfZerosThen(k: nat, d: string)
    requires d != [] && AllDigits(d)
    ensures ParseInt(Repeat('0', k) + d) == Int(DigitsValue(d))
  {
    var s := Repeat('0', k) + d;
    DigitsValueLeadingZeros(k, d);
    ParseIntOfDigitsThen(s, []);
    assert s + [] == s;
  }

  lemma PaddedIsZerosThen(d: string, width: nat)
    ensures PadStart(d, width, '0') == Repeat('0', if |d| < width then width - |d| else 0) + d
  {
    if |d| >= width {
      assert Repeat('0', 0) + d == d;
    }
  }

  // ---------------------------------------------------------------------
  // replace with a one-character pattern

  /** The position of the first occurrence of c in s. */
  function IndexOf(s: string, c: char): (r: nat)
    requires c in s
    ensures r < |s| && s[r] == c
    ensures forall j :: 0 <= j < r ==> s[j] != c
  {
    if s[0] == c then 0 else IndexOf(s[1..], c) + 1
  }

  /** s.replace(from, to) with a string pattern of one character: only the
      first occurrence is replaced. */
  function ReplaceFirst(s: string, from: char, to: char): (r: string)
    ensures from !in s ==> r == s
    ensures from in s ==> r == s[IndexOf(s, from) := to]
  {
    if s == [] then []
    else if s[0] == from then [to] + s[1..]
    else [s[0]] + ReplaceFirst(s[1..], from, to)
  }

  /** Replacing the first hyphen removes exactly one occurrence of it and
      leaves every later character, later hyphens included, in place. */
  lemma ReplaceFirstRemovesOne(s: string, from: char, to: char)
    requires from in s && from != to
    ensures |ReplaceFirst(s, from, to)| == |s|
    ensures multiset(ReplaceFirst(s, from, to))[from] == multiset(s)[from] - 1
    ensures forall i :: IndexOf(s, from) < i < |s| ==> ReplaceFirst(s, from, to)[i] == s[i]
  {
    var k := IndexOf(s, from);
    var r := ReplaceFirst(s, from, to);
    var before, after := s[..k], s[k + 1..];
    assert from !in before;
    assert s == before + [from] + after;
    assert r == before + [to] + after;
    assert multiset(s) == multiset(before) + multiset{from} + multiset(after);
    assert multiset(r) == multiset(before) + multiset{to} + multiset(after);
  }

  /** s.replace(/c/g, d): every occurrence replaced. */
  function ReplaceAll(s: string, from: char, to: char): (r: string)
    ensures |r| == |s|
    ensures forall i :: 0 <= i < |s| ==> r[i] == if s[i] == from then to else s[i]
  {
    if s == [] then [] else [if s[0] == from then to else s[0]] + ReplaceAll(s[1..], from, to)
  }

  /** After a global replace the pattern character is gone, and a second
      replace changes nothing. */
  lemma ReplaceAllRemovesAll(s: string, from: char, to: char)
    requires from != to
    ensures from !in ReplaceAll(s, from, to)
    ensures ReplaceAll(ReplaceAll(s, from, to), from, to) == ReplaceAll(s, from, to)
  {
  }

  // ---------------------------------------------------------------------
  // split and join

  /** s.split(sep) with a one-character separator. */
  function Split(s: string, sep: char): (r: seq<string>)
    ensures |r| >= 1
  {
    if s == [] then [[]]
    else
      var rest := Split(s[1..], sep);
      if s[0] == sep then [[]] + rest else [[s[0]] + rest[0]] + rest[1..]
  }

  /** xs.join(sep). */
  function Join(xs: seq<string>, sep: string): string
  {
    if |xs| == 0 then "" else if |xs| == 1 then xs[0] else xs[0] + sep + Join(xs[1..], sep)
  }

  /** No piece of a split holds the separator. */
  lemma {:induction false} SplitPiecesLackSeparator(s: string, sep: char)
    ensures forall i :: 0 <= i < |Split(s, sep)| ==> sep !in Split(s, sep)[i]
  {
    if s != [] {
      SplitPiecesLackSeparator(s[1..], sep);
      var rest := Split(s[1..], sep);
      if s[0] != sep {
        var r := Split(s, sep);
        assert r[0] == [s[0]] + rest[0];
        assert forall i :: 1 <= i < |r| ==> r[i] == rest[i];
      }
    }
  }

  /** A string without the separator splits into itself alone. */
  lemma {:induction false} SplitWithoutSeparator(s: string, sep: char)
    requires sep !in s
    ensures Split(s, sep) == [s]
  {
    if s != [] {
      SplitWithoutSeparator(s[1..], sep);
      assert [s[0]] + s[1..] == s;
    }
  }

  /** How split treats the first character: a separator starts a new
      piece, any other character joins the first piece of the rest. */
  lemma SplitCons(c: char, s: string, sep: char)
    ensures c == sep ==> Split([c] + s, sep) == [[]] + Split(s, sep)
    ensures c != sep ==> Split([c] + s, sep) == [[c] + Split(s, sep)[0]] + Split(s, sep)[1..]
  {
    assert ([c] + s)[1..] == s;
  }

  /** The piece bookkeeping of a split step: extending the first piece of
      a concatenation of pieces extends the first piece of its left part. */
  lemma ExtendFirstPiece(c: char, left: seq<string>, right: seq<string>)
    requires |left| >= 1
    ensures [[c] + (left + right)[0]] + (left + right)[1..] == ([[c] + left[0]] + left[1..]) + right
  {
    assert (left + right)[0] == left[0];
    assert (left + right)[1..] == left[1..] + right;
  }

  /** Splitting at a separator splits both sides independently. */
  lemma {:induction false} SplitAtSeparator(a: string, sep: char, b: string)
    ensures Split(a + [sep] + b, sep) == Split(a, sep) + Split(b, sep)
  {
    if a == [] {
      assert a + [sep] + b == [sep] + b;
      SplitCons(sep, b, sep);
    } else {
      SplitAtSeparator(a[1..], sep, b);
      SplitAtSeparatorStep(a[0], a[1..], sep, b);
      assert a == [a[0]] + a[1..];
    }
  }

  /** The inductive step of SplitAtSeparator: one more character in front. */
  lemma SplitAtSeparatorStep(c: char, tail: string, sep: char, b: string)
    requires Split(tail + [sep] + b, sep) == Split(tail, sep) + Split(b, sep)
    ensures Split([c] + tail + [sep] + b, sep) == Split([c] + tail, sep) + Split(b, sep)
  {
    var t := tail + [sep] + b;
    assert [c] + tail + [sep] + b == [c] + t;
    if c == sep {
      SeparatorInFront(tail, sep, b);
    } else {
      CharacterInFront(c, tail, sep, b);
    }
  }

  /** SplitAtSeparatorStep when the new character is the separator: it
      starts an empty piece on both sides. */
  lemma SeparatorInFront(tail: string, sep: char, b: string)
    requires Split(tail + [sep] + b, sep) == Split(tail, sep) + Split(b, sep)
    ensures Split([sep] + (tail + [sep] + b), sep) == Split([sep] + tail, sep) + Split(b, sep)
  {
    var t := tail + [sep] + b;
    var restA, restB := Split(tail, sep), Split(b, sep);
    calc {
      Split([sep] + t, sep);
      { SplitCons(sep, t, sep); }
      [[]] + Split(t, sep);
      [[]] + (restA + restB);
      { PiecesAssoc([[]], restA, restB); }
      ([[]] + restA) + restB;
      { SplitCons(sep, tail, sep); }
      Split([sep] + tail, sep) + restB;
    }
  }

  /** Concatenation of piece lists is associative. */
  lemma PiecesAssoc(x: seq<string>, y: seq<string>, z: seq<string>)
    ensures x + (y + z) == (x + y) + z
  {
  }

  /** SplitAtSeparatorStep for any other character: it extends the first
      piece on both sides. */
  lemma CharacterInFront(c: char, tail: string, sep: char, b: string)
    requires c != sep
    requires Split(tail + [sep] + b, sep) == Split(tail, sep) + Split(b, sep)
    ensures Split([c] + (tail + [sep] + b), sep) == Split([c] + tail, sep) + Split(b, sep)
  {
    SplitCons(c, tail + [sep] + b, sep);
    SplitCons(c, tail, sep);
    ExtendFirstPiece(c, Split(tail, sep), Split(b, sep));
  }

  /** Joining the pieces of a split with the separator gives back the string. */
  lemma {:induction false} JoinSplit(s: string, sep: char)
    ensures Join(Split(s, sep), [sep]) == s
  {
    if s != [] {
      var c, t := s[0], s[1..];
      assert s == [c] + t;
      JoinSplit(t, sep);
      SplitCons(c, t, sep);
      var rest := Split(t, sep);
      if c == sep {
        JoinCons([], rest, [sep]);
        assert [] + [sep] + Join(rest, [sep]) == [c] + t;
      } else {
        JoinExtendFirst(c, rest, [sep]);
      }
    }
  }

  /** Joining a piece in front of at least one other puts the separator between. */
  lemma JoinCons(x: string, xs: seq<string>, sep: string)
    requires |xs| >= 1
    ensures Join([x] + xs, sep) == x + sep + Join(xs, sep)
  {
    assert ([x] + xs)[1..] == xs;
  }

  /** Extending the first piece extends the joined text by the same character. */
  lemma JoinExtendFirst(c: char, xs: seq<string>, sep: string)
    requires |xs| >= 1
    ensures Join([[c] + xs[0]] + xs[1..], sep) == [c] + Join(xs, sep)
  {
    if |xs| == 1 {
      assert [[c] + xs[0]] + xs[1..] == [[c] + xs[0]];
    } else {
      JoinCons([c] + xs[0], xs[1..], sep);
      assert xs == [xs[0]] + xs[1..];
      JoinCons(xs[0], xs[1..], sep);
    }
  }

  /** Splitting a join of separator-free pieces gives back the pieces. */
  lemma {:induction false} SplitJoin(xs: seq<string>, sep: char)
    requires |xs| >= 1
    requires forall i :: 0 <= i < |xs| ==> sep !in xs[i]
    ensures Split(Join(xs, [sep]), sep) == xs
  {
    if |xs| == 1 {
      SplitWithoutSeparator(xs[0], sep);
    } else {
      var rest := xs[1..];
      assert forall i :: 0 <= i < |rest| ==> rest[i] == xs[i + 1];
      var j := Join(rest, [sep]);
      calc {
        Split(Join(xs, [sep]), sep);
        { assert Join(xs, [sep]) == xs[0] + [sep] + j; }
        Split(xs[0] + [sep] + j, sep);
        { SplitAtSeparator(xs[0], sep, j); }
        Split(xs[0], sep) + Split(j, sep);
        { SplitWithoutSeparator(xs[0], sep); SplitJoin(rest, sep); }
        [xs[0]] + rest;
        xs;
      }
    }
  }

  // ---------------------------------------------------------------------
  // The relational operator < on strings

  /** a < b on strings: a is a proper prefix of b, or a has the smaller
      character at the first position where they differ. */
  predicate LexLess(a: string, b: string)
    decreases |a|
  {
    if b == [] then false
    else if a == [] then true
    else if a[0] != b[0] then a[0] < b[0]
    else LexLess(a[1..], b[1..])
  }

  lemma {:induction false} LexIrreflexive(a: string)
    ensures !LexLess(a, a)
    decreases |a|
  {
    if a != [] {
      LexIrreflexive(a[1..]);
    }
  }

  lemma {:induction false} LexAsymmetric(a: string, b: string)
    ensures !(LexLess(a, b) && LexLess(b, a))
    decreases |a|
  {
    if a != [] && b != [] && a[0] == b[0] {
      LexAsymmetric(a[1..], b[1..]);
    }
  }

  lemma {:induction false} LexTransitive(a: string, b: string, c: string)
    requires LexLess(a, b) && LexLess(b, c)
    ensures LexLess(a, c)
    decreases |a|
  {
    if a != [] && a[0] == b[0] && b[0] == c[0] {
      LexTransitive(a[1..], b[1..], c[1..]);
    }
  }

  lemma {:induction false} LexTotal(a: string, b: string)
    requires a != b
    ensures LexLess(a, b) || LexLess(b, a)
    decreases |a|
  {
    if a != [] && b != [] && a[0] == b[0] {
      assert a == [a[0]] + a[1..] && b == [b[0]] + b[1..];
      LexTotal(a[1..], b[1..]);
    }
  }

  /** "not greater than" on strings is transitive: the relation a sort by
      name relies on. */
  lemma LexNotGreaterTransitive(a: string, b: string, c: string)
    requires !LexLess(b, a) && !LexLess(c, b)
    ensures !LexLess(c, a)
  {
    if a != b {
      LexTotal(a, b);
      if b != c {
        LexTotal(b, c);
        LexTransitive(a, b, c);
      }
      LexAsymmetric(a, c);
    } else if b != c {
      LexTotal(b, c);
      LexAsymmetric(b, c);
    } else {
      LexIrreflexive(a);
    }
  }
}
