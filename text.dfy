/**
  The JavaScript string operations the app relies on: decimal and
  hexadecimal notation, padStart, split, trim and the ordering used by
  Array.prototype.sort. Strings are sequences of Unicode scalar values.
*/
module Text {

  predicate IsDigit(c: char) {
    '0' <= c <= '9'
  }

  predicate AllDigits(s: string) {
    forall i :: 0 <= i < |s| ==> IsDigit(s[i])
  }

  function DigitValue(c: char): (d: nat)
    requires IsDigit(c)
    ensures d < 10
  {
    c as int - '0' as int
  }

  function DigitChar(d: nat): (c: char)
    requires d < 10
    ensures IsDigit(c) && DigitValue(c) == d
  {
    ('0' as int + d) as char
  }

  /** String(n) for a natural number: decimal digits, no leading zero. */
  function NatToString(n: nat): (s: string)
    ensures |s| >= 1 && AllDigits(s)
    ensures |s| > 1 ==> s[0] != '0'
    decreases n
  {
    if n < 10 then [DigitChar(n)] else NatToString(n / 10) + [DigitChar(n % 10)]
  }

  predicate IsHexDigit(c: char) {
    IsDigit(c) || 'a' <= c <= 'f' || 'A' <= c <= 'F'
  }

  function HexDigitValue(c: char): (d: nat)
    requires IsHexDigit(c)
    ensures d < 16
  {
    if IsDigit(c) then DigitValue(c)
    else if 'a' <= c <= 'f' then c as int - 'a' as int + 10
    else c as int - 'A' as int + 10
  }

  /** A hexadecimal digit as Number.prototype.toString(16) writes it. */
  function HexDigitLower(d: nat): (c: char)
    requires d < 16
    ensures IsHexDigit(c) && HexDigitValue(c) == d
  {
    if d < 10 then DigitChar(d) else ('a' as int + d - 10) as char
  }

  /** A hexadecimal digit as the emoji catalogue writes it. */
  function HexDigitUpper(d: nat): (c: char)
    requires d < 16
    ensures IsHexDigit(c) && HexDigitValue(c) == d
  {
    if d < 10 then DigitChar(d) else ('A' as int + d - 10) as char
  }

  /** String(i) for an integer: a minus sign before the digits of a negative number. */
  function IntToString(i: int): (s: string)
    ensures i >= 0 ==> |s| >= 1 && AllDigits(s) && DecimalValue(s) == i && (|s| > 1 ==> s[0] != '0')
    ensures i < 0 ==> |s| >= 2 && s[0] == '-' && AllDigits(s[1..]) && DecimalValue(s[1..]) == -i
                      && (|s| > 2 ==> s[1] != '0')
  {
    if i < 0 then
      var digits := NatToString(-i);
      DecimalRoundTrip(-i);
      assert ("-" + digits)[1..] == digits;
      "-" + digits
    else
      DecimalRoundTrip(i);
      NatToString(i)
  }

  /** The value of a string of decimal digits (leading zeros allowed), read left to right. */
  function DecimalValue(s: string): nat
    requires AllDigits(s)
    decreases |s|
  {
    if s == [] then 0 else DecimalValue(s[..|s| - 1]) * 10 + DigitValue(s[|s| - 1])
  }

  lemma {:induction false} DecimalRoundTrip(n: nat)
    ensures DecimalValue(NatToString(n)) == n
    decreases n
  {
    if n >= 10 {
      var s := NatToString(n);
      DecimalRoundTrip(n / 10);
      assert s[..|s| - 1] == NatToString(n / 10);
    }
  }

  lemma {:induction false} LeadingZeros(z: string, s: string)
    requires forall i :: 0 <= i < |z| ==> z[i] == '0'
    requires AllDigits(s)
    ensures AllDigits(z + s)
    ensures DecimalValue(z + s) == DecimalValue(s)
    decreases |s|
  {
    if s == [] {
      assert z + s == z;
      AllZeros(z);
    } else {
      var t := z + s;
      assert t[..|t| - 1] == z + s[..|s| - 1];
      LeadingZeros(z, s[..|s| - 1]);
    }
  }

  lemma {:induction false} AllZeros(z: string)
    requires forall i :: 0 <= i < |z| ==> z[i] == '0'
    ensures AllDigits(z) && DecimalValue(z) == 0
    decreases |z|
  {
    if z != [] {
      AllZeros(z[..|z| - 1]);
    }
  }

  predicate AllHexDigits(s: string) {
    forall i :: 0 <= i < |s| ==> IsHexDigit(s[i])
  }

  /** The value of a string of hexadecimal digits in either case, read left to right. */
  function HexValue(s: string): nat
    requires AllHexDigits(s)
    decreases |s|
  {
    if s == [] then 0 else HexValue(s[..|s| - 1]) * 16 + HexDigitValue(s[|s| - 1])
  }

  /** The upper-case hexadecimal digits of n, no leading zero. */
  function HexText(n: nat): (s: string)
    ensures |s| >= 1 && AllHexDigits(s)
    ensures forall i :: 0 <= i < |s| ==> s[i] != 'x' && s[i] != 'X' && !('a' <= s[i] <= 'z')
    decreases n
  {
    if n < 16 then [HexDigitUpper(n)] else HexText(n / 16) + [HexDigitUpper(n % 16)]
  }

  lemma {:induction false} HexRoundTrip(n: nat)
    ensures HexValue(HexText(n)) == n
    decreases n
  {
    if n >= 16 {
      var s := HexText(n);
      HexRoundTrip(n / 16);
      assert s[..|s| - 1] == HexText(n / 16);
    }
  }

  lemma {:induction false} HexLeadingZeros(z: string, s: string)
    requires forall i :: 0 <= i < |z| ==> z[i] == '0'
    requires AllHexDigits(s)
    ensures AllHexDigits(z + s)
    ensures HexValue(z + s) == HexValue(s)
    decreases |s|
  {
    if s == [] {
      assert z + s == z;
      HexAllZeros(z);
    } else {
      var t := z + s;
      assert t[..|t| - 1] == z + s[..|s| - 1];
      HexLeadingZeros(z, s[..|s| - 1]);
    }
  }

  lemma {:induction false} HexAllZeros(z: string)
    requires forall i :: 0 <= i < |z| ==> z[i] == '0'
    ensures AllHexDigits(z) && HexValue(z) == 0
    decreases |z|
  {
    if z != [] {
      HexAllZeros(z[..|z| - 1]);
    }
  }

  /** s.padStart(width, fill): s preceded by as many fill characters as it is short of width. */
  function PadStart(s: string, width: nat, fill: char): (r: string)
    ensures |r| == if |s| >= width then |s| else width
    ensures r[|r| - |s|..] == s
    ensures forall i :: 0 <= i < |r| - |s| ==> r[i] == fill
  {
    if |s| >= width then s else seq(width - |s|, _ => fill) + s
  }

  /**
    String(n).padStart(width, '0'): the decimal digits of n, left-padded
    with '0' to at least width characters, with no leading zero beyond
    those the padding adds. Built one digit at a time from the right.
  */
  function ZeroPad(n: nat, width: nat): (s: string)
    ensures AllDigits(s) && |s| >= 1 && |s| >= width
    ensures 1 <= width && n < Pow10(width) ==> |s| == width
    ensures |s| > width && |s| > 1 ==> s[0] != '0'
    decreases n + width
  {
    if n < 10 && width <= 1 then [DigitChar(n)]
    else
      var w := if width > 0 then width - 1 else 0;
      var init := ZeroPad(n / 10, w);
      assert 1 <= width && n < Pow10(width) ==> n / 10 < Pow10(w);
      init + [DigitChar(n % 10)]
  }

  /** A zero-padded number reads back as the number. */
  lemma {:induction false} ZeroPadValue(n: nat, width: nat)
    ensures DecimalValue(ZeroPad(n, width)) == n
    decreases n + width
  {
    var s := ZeroPad(n, width);
    if !(n < 10 && width <= 1) {
      var w := if width > 0 then width - 1 else 0;
      ZeroPadValue(n / 10, w);
      assert s[..|s| - 1] == ZeroPad(n / 10, w);
    } else {
      assert s[..|s| - 1] == [];
    }
  }

  function Pow10(k: nat): (p: nat)
    ensures p >= 1
  {
    if k == 0 then 1 else 10 * Pow10(k - 1)
  }

  /** A number below 10^k has at most k decimal digits. */
  lemma {:induction false} DigitsBound(n: nat, k: nat)
    requires 1 <= k && n < Pow10(k)
    ensures |NatToString(n)| <= k
    decreases n
  {
    if n >= 10 {
      assert Pow10(1) == 10;
      assert k >= 2;
      DigitsBound(n / 10, k - 1);
    }
  }

  /** parts.join(sep). */
  function Join(parts: seq<string>, sep: char): string
    decreases |parts|
  {
    if parts == [] then ""
    else if |parts| == 1 then parts[0]
    else parts[0] + [sep] + Join(parts[1..], sep)
  }

  /**
    s.split(sep) for a one-character separator, read one character at a
    time: a separator starts a new piece, any other character joins the
    first piece. Never empty, and no piece holds sep.
  */
  function Split(s: string, sep: char): (parts: seq<string>)
    ensures |parts| >= 1
    ensures forall i :: 0 <= i < |parts| ==> sep !in parts[i]
    ensures Join(parts, sep) == s
    decreases |s|
  {
    if s == [] then [[]]
    else
      var rest := Split(s[1..], sep);
      if s[0] == sep then
        assert Join([[]] + rest, sep) == [sep] + Join(rest, sep) by {
          assert ([[]] + rest)[1..] == rest;
        }
        [[]] + rest
      else
        var parts := [[s[0]] + rest[0]] + rest[1..];
        assert Join(parts, sep) == [s[0]] + Join(rest, sep) by {
          if |rest| > 1 {
            assert parts[1..] == rest[1..];
          }
        }
        assert s == [s[0]] + s[1..];
        parts
  }

  /** Splitting a join of pieces that do not contain the separator gives the pieces back. */
  lemma {:induction false} SplitJoin(parts: seq<string>, sep: char)
    requires |parts| >= 1
    requires forall i :: 0 <= i < |parts| ==> sep !in parts[i]
    ensures Split(Join(parts, sep), sep) == parts
    decreases |Join(parts, sep)|
  {
    var s := Join(parts, sep);
    if parts[0] == [] {
      if |parts| > 1 {
        assert s == [sep] + Join(parts[1..], sep);
        assert s[1..] == Join(parts[1..], sep);
        SplitJoin(parts[1..], sep);
        assert parts == [[]] + parts[1..];
      }
    } else {
      var c := parts[0][0];
      var tail := [parts[0][1..]] + parts[1..];
      assert Join(tail, sep) == s[1..] by {
        if |parts| > 1 {
          assert tail[1..] == parts[1..];
          assert s == parts[0] + [sep] + Join(parts[1..], sep);
        }
      }
      assert s[0] == c && c != sep by {
        assert parts[0] == s[..|parts[0]|];
        assert parts[0][0] in parts[0];
      }
      SplitJoin(tail, sep);
      assert parts[0] == [c] + tail[0];
      assert parts == [[c] + tail[0]] + tail[1..];
    }
  }

  /** Two digit strings joined by a non-digit split back into the two. */
  lemma SplitDigitPair(a: string, b: string, sep: char)
    requires AllDigits(a) && AllDigits(b) && !IsDigit(sep)
    ensures Split(a + [sep] + b, sep) == [a, b]
  {
    assert sep !in a && sep !in b;
    SplitJoin([a, b], sep);
    assert Join([a, b], sep) == a + [sep] + b;
  }

  /** s.split(c)[0]: everything before the first c, or all of s. */
  function BeforeFirst(s: string, c: char): (r: string)
    ensures c !in r
    ensures |r| <= |s| && r == s[..|r|]
    ensures r == s || s[|r|] == c
  {
    var parts := Split(s, c);
    if |parts| == 1 then
      parts[0]
    else
      assert s == parts[0] + [c] + Join(parts[1..], c);
      parts[0]
  }

  /**
    WhiteSpace and LineTerminator of the ECMAScript grammar (section 12.2
    and 12.3 of ECMA-262): what String.prototype.trim and parseInt skip.
  */
  predicate IsJsWhitespace(c: char) {
    || c == '\t' || c == '\n' || c == '\U{000B}' || c == '\U{000C}' || c == '\r' || c == ' '
    || c == '\U{00A0}' || c == '\U{1680}' || ('\U{2000}' <= c <= '\U{200A}')
    || c == '\U{2028}' || c == '\U{2029}' || c == '\U{202F}' || c == '\U{205F}'
    || c == '\U{3000}' || c == '\U{FEFF}'
  }

  /** Every character of s from index i up to j is white space (vacuously so when j <= i). */
  predicate WhitespaceBetween(s: string, i: int, j: int) {
    forall k :: i <= k < j && 0 <= k < |s| ==> IsJsWhitespace(s[k])
  }

  /** Every character of s is white space (vacuously so for ""). */
  predicate AllWhitespace(s: string) {
    WhitespaceBetween(s, 0, |s|)
  }

  /** s.trimStart(): what is left once the leading white space is dropped; TrimStartSuffix shows it is a suffix of s. */
  function TrimStart(s: string): (r: string)
    ensures |r| <= |s|
    ensures WhitespaceBetween(s, 0, |s| - |r|)
    ensures r == [] || !IsJsWhitespace(r[0])
    decreases |s|
  {
    if s != [] && IsJsWhitespace(s[0]) then
      var r := TrimStart(s[1..]);
      assert forall k :: 1 <= k < |s| ==> s[k] == s[1..][k - 1];
      r
    else s
  }

  /** s.trimStart() is a suffix of s. */
  lemma {:induction false} TrimStartSuffix(s: string)
    ensures TrimStart(s) == s[|s| - |TrimStart(s)|..]
    decreases |s|
  {
    if s != [] && IsJsWhitespace(s[0]) {
      TrimStartSuffix(s[1..]);
      var r := TrimStart(s[1..]);
      assert s[1..][|s| - 1 - |r|..] == s[|s| - |r|..];
    }
  }

  /** s.trimEnd(): what is left once the trailing white space is dropped; TrimEndPrefix shows it is a prefix of s. */
  function TrimEnd(s: string): (r: string)
    ensures |r| <= |s|
    ensures WhitespaceBetween(s, |r|, |s|)
    ensures r == [] || !IsJsWhitespace(r[|r| - 1])
    decreases |s|
  {
    if s != [] && IsJsWhitespace(s[|s| - 1]) then
      var r := TrimEnd(s[..|s| - 1]);
      assert forall k :: 0 <= k < |s| - 1 ==> s[k] == s[..|s| - 1][k];
      r
    else s
  }

  /** s.trimEnd() is a prefix of s. */
  lemma {:induction false} TrimEndPrefix(s: string)
    ensures TrimEnd(s) == s[..|TrimEnd(s)|]
    decreases |s|
  {
    if s != [] && IsJsWhitespace(s[|s| - 1]) {
      TrimEndPrefix(s[..|s| - 1]);
      var r := TrimEnd(s[..|s| - 1]);
      assert s[..|s| - 1][..|r|] == s[..|r|];
    }
  }

  /** r is the slice s[a..b] of s for some a <= b with only white space in s before a and from b on. */
  predicate SliceBetweenWhitespace(s: string, r: string) {
    exists a, b :: 0 <= a <= b <= |s| && r == s[a..b] && WhitespaceBetween(s, 0, a) && WhitespaceBetween(s, b, |s|)
  }

  /**
    s.trim(): the slice of s between its leading and its trailing white
    space, with no white space at either end of its own; nothing is left
    exactly when s is all white space.
  */
  function Trim(s: string): (r: string)
    ensures |r| <= |s|
    ensures SliceBetweenWhitespace(s, r)
    ensures r == [] || (!IsJsWhitespace(r[0]) && !IsJsWhitespace(r[|r| - 1]))
    ensures r == [] <==> AllWhitespace(s)
  {
    TrimFacts(s);
    TrimEnd(TrimStart(s))
  }

  /** The contract of Trim, about the two steps it takes. */
  lemma TrimFacts(s: string)
    ensures |TrimEnd(TrimStart(s))| <= |s|
    ensures SliceBetweenWhitespace(s, TrimEnd(TrimStart(s)))
    ensures var r := TrimEnd(TrimStart(s)); r == [] || (!IsJsWhitespace(r[0]) && !IsJsWhitespace(r[|r| - 1]))
    ensures TrimEnd(TrimStart(s)) == [] <==> AllWhitespace(s)
  {
    var t := TrimStart(s);
    TrimStartSuffix(s);
    TrimEndPrefix(t);
    TrimmedCut(s, t, TrimEnd(t));
  }

  /**
    A suffix t of s after white space only, cut to a prefix r before white
    space only: r is a slice of s with white space only on either side, no
    white space at its own ends, and empty exactly when s is all white space.
  */
  lemma TrimmedCut(s: string, t: string, r: string)
    requires |t| <= |s| && t == s[|s| - |t|..] && WhitespaceBetween(s, 0, |s| - |t|)
    requires |r| <= |t| && r == t[..|r|] && WhitespaceBetween(t, |r|, |t|)
    requires t == [] || !IsJsWhitespace(t[0])
    requires r == [] || !IsJsWhitespace(r[|r| - 1])
    ensures |r| <= |s|
    ensures SliceBetweenWhitespace(s, r)
    ensures r == [] || (!IsJsWhitespace(r[0]) && !IsJsWhitespace(r[|r| - 1]))
    ensures r == [] <==> AllWhitespace(s)
  {
    var a := |s| - |t|;
    var b := a + |r|;
    assert r == s[a..b];
    assert forall k :: a <= k < |s| ==> s[k] == t[k - a];
    if r != [] {
      assert r[0] == t[0] == s[a];
    }
  }

  /**
    The order Array.prototype.sort uses for strings when no comparator is
    given: lexicographic on characters, a proper prefix first.
  */
  predicate LexLess(a: string, b: string)
    decreases |a|
  {
    if a == [] then b != []
    else if b == [] then false
    else if a[0] != b[0] then a[0] < b[0]
    else LexLess(a[1..], b[1..])
  }

  lemma {:induction false} LexIrreflexive(a: string)
    ensures !LexLess(a, a)
    decreases |a|
  {
    if a != [] {
      LexIrreflexive(a[1..]);
    }
  }

  lemma {:induction false} LexTransitive(a: string, b: string, c: string)
    requires LexLess(a, b) && LexLess(b, c)
    ensures LexLess(a, c)
    decreases |a|
  {
    if a != [] && b != [] && c != [] && a[0] == b[0] && b[0] == c[0] {
      LexTransitive(a[1..], b[1..], c[1..]);
    }
  }

  lemma {:induction false} LexTotal(a: string, b: string)
    requires a != b
    ensures LexLess(a, b) || LexLess(b, a)
    decreases |a|
  {
    if a != [] && b != [] && a[0] == b[0] {
      assert a == [a[0]] + a[1..] && b == [b[0]] + b[1..];
      LexTotal(a[1..], b[1..]);
    }
  }

  lemma {:induction false} LexAsymmetric(a: string, b: string)
    requires LexLess(a, b)
    ensures !LexLess(b, a)
    decreases |a|
  {
    if a != [] && b != [] && a[0] == b[0] {
      LexAsymmetric(a[1..], b[1..]);
    }
  }

  predicate StrictlyAscending(s: seq<string>) {
    forall i, j :: 0 <= i < j < |s| ==> LexLess(s[i], s[j])
  }

  function InsertAscending(x: string, s: seq<string>): (r: seq<string>)
    requires StrictlyAscending(s) && x !in s
    ensures StrictlyAscending(r)
    ensures |r| == |s| + 1
    ensures forall e :: e in r <==> e in s || e == x
    decreases |s|
  {
    if s == [] then [x]
    else if LexLess(x, s[0]) then
      assert forall j :: 0 < j < |s| ==> LexLess(x, s[j]) by {
        forall j | 0 < j < |s| ensures LexLess(x, s[j]) {
          LexTransitive(x, s[0], s[j]);
        }
      }
      [x] + s
    else
      var t := InsertAscending(x, s[1..]);
      assert LexLess(s[0], x) by {
        LexTotal(x, s[0]);
      }
      assert forall e :: e in t ==> LexLess(s[0], e) by {
        forall e | e in t ensures LexLess(s[0], e) {
          if e in s[1..] {
            var j :| 0 <= j < |s[1..]| && s[1..][j] == e;
            assert s[j + 1] == e;
          }
        }
      }
      [s[0]] + t
  }

  /**
    Array.prototype.sort() without a comparator on distinct strings:
    ascending character order.
  */
  function SortStrings(s: seq<string>): (r: seq<string>)
    requires forall i, j :: 0 <= i < j < |s| ==> s[i] != s[j]
    ensures StrictlyAscending(r)
    ensures |r| == |s|
    ensures forall e :: e in r <==> e in s
    decreases |s|
  {
    if s == [] then [] else InsertAscending(s[0], SortStrings(s[1..]))
  }

  /** The leading digit of s is worth 10^(|s| - 1) times its value. */
  lemma {:induction false} DecimalFront(s: string)
    requires |s| >= 1 && AllDigits(s)
    ensures DecimalValue(s) == DigitValue(s[0]) * Pow10(|s| - 1) + DecimalValue(s[1..])
    decreases |s|
  {
    if |s| > 1 {
      var init, tail := s[..|s| - 1], s[1..];
      var last := DigitValue(s[|s| - 1]);
      DecimalFront(init);
      assert init[1..] == tail[..|tail| - 1];
      assert tail[|tail| - 1] == s[|s| - 1];
      assert DecimalValue(s) == DecimalValue(init) * 10 + last;
      assert DecimalValue(tail) == DecimalValue(init[1..]) * 10 + last;
      assert Pow10(|s| - 1) == Pow10(|s| - 2) * 10;
      ShiftDigit(DigitValue(s[0]), Pow10(|s| - 2), DecimalValue(init[1..]), last);
    }
  }

  lemma ShiftDigit(d: nat, p: nat, x: nat, y: nat)
    ensures (d * p + x) * 10 + y == d * (p * 10) + (x * 10 + y)
  {
  }

  lemma {:induction false} DecimalBound(s: string)
    requires AllDigits(s)
    ensures DecimalValue(s) < Pow10(|s|)
    decreases |s|
  {
    if s != [] {
      DecimalBound(s[..|s| - 1]);
    }
  }

  /** On digit strings of one length, lexicographic order is numeric order. */
  lemma {:induction false} LexDigitsOrder(s: string, t: string)
    requires |s| == |t| && AllDigits(s) && AllDigits(t)
    ensures LexLess(s, t) <==> DecimalValue(s) < DecimalValue(t)
    decreases |s|
  {
    if s != [] {
      DecimalFront(s);
      DecimalFront(t);
      DecimalBound(s[1..]);
      DecimalBound(t[1..]);
      var p := Pow10(|s| - 1);
      var ds, dt := DigitValue(s[0]), DigitValue(t[0]);
      if s[0] == t[0] {
        LexDigitsOrder(s[1..], t[1..]);
      } else {
        assert LexLess(s, t) <==> ds < dt;
        LeadingDigitDecides(ds, dt, p, DecimalValue(s[1..]), DecimalValue(t[1..]));
        LeadingDigitDecides(dt, ds, p, DecimalValue(t[1..]), DecimalValue(s[1..]));
      }
    }
  }

  lemma LeadingDigitDecides(d1: nat, d2: nat, p: nat, r1: nat, r2: nat)
    requires r1 < p && r2 < p
    ensures d1 < d2 ==> d1 * p + r1 < d2 * p + r2
  {
    if d1 < d2 {
      assert (d1 + 1) * p <= d2 * p;
    }
  }

  /** Comparing two strings whose first parts have one length compares those parts first. */
  lemma {:induction false} LexConcat(a: string, c: string, r1: string, r2: string)
    requires |a| == |c|
    ensures LexLess(a + r1, c + r2) <==> LexLess(a, c) || (a == c && LexLess(r1, r2))
    decreases |a|
  {
    if a == [] {
      assert a + r1 == r1 && c + r2 == r2;
    } else {
      assert (a + r1)[1..] == a[1..] + r1 && (c + r2)[1..] == c[1..] + r2;
      LexConcat(a[1..], c[1..], r1, r2);
      assert a == [a[0]] + a[1..] && c == [c[0]] + c[1..];
    }
  }
}
