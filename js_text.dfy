/**
 The few JavaScript string and number built-ins the booking scripts lean on, written out so
 that the decisions built from them can be stated exactly: `trim` and the regular-expression
 class `\s`, `String(n)` for a whole number, `padStart`, `slice(-k)`, `substring`,
 `toUpperCase` on the base-36 alphabet, `parseInt(s, 10)`, and the two places where the
 scripts see a string as UTF-16 code units: `length` and the default order of
 `Array.prototype.sort`.
 */
module JsText {
  import opened Wrappers

  // ---------------------------------------------------------------------------------------
  // White space and trimming
  // ---------------------------------------------------------------------------------------

  /** The code points ECMAScript counts as WhiteSpace or LineTerminator: what `trim`,
      `parseInt` and the class `\s` skip or match. */
  predicate IsSpace(c: char) {
    || c == '\t' || c == '\n' || c == '\U{B}' || c == '\U{C}' || c == '\r' || c == ' '
    || c == '\U{A0}' || c == '\U{1680}' || ('\U{2000}' <= c <= '\U{200A}')
    || c == '\U{2028}' || c == '\U{2029}' || c == '\U{202F}' || c == '\U{205F}'
    || c == '\U{3000}' || c == '\U{FEFF}'
  }

  ghost predicate AllSpace(s: string) {
    forall k :: 0 <= k < |s| ==> IsSpace(s[k])
  }

  /** `String.prototype.trimStart`. */
  function TrimStart(s: string): string
  {
    if s != [] && IsSpace(s[0]) then TrimStart(s[1..]) else s
  }

  /** `String.prototype.trimEnd`. */
  function TrimEnd(s: string): string
  {
    if s != [] && IsSpace(s[|s| - 1]) then TrimEnd(s[..|s| - 1]) else s
  }

  /** `String.prototype.trim`: the slice of `s` left once white space is removed at both ends. */
  function Trim(s: string): string
  {
    TrimEnd(TrimStart(s))
  }

  /** `trimStart` drops the leading white space and nothing else. */
  lemma {:induction false} TrimStartDrops(s: string)
    ensures var r := TrimStart(s);
            && |r| <= |s| && r == s[|s| - |r|..]
            && (r == [] || !IsSpace(r[0]))
            && AllSpace(s[..|s| - |r|])
  {
    if s != [] && IsSpace(s[0]) {
      TrimStartDrops(s[1..]);
      var r := TrimStart(s);
      assert s[..|s| - |r|] == [s[0]] + s[1..][..|s| - 1 - |r|];
    }
  }

  /** `trimEnd` drops the trailing white space and nothing else. */
  lemma {:induction false} TrimEndDrops(s: string)
    ensures var r := TrimEnd(s);
            && |r| <= |s| && r == s[..|r|]
            && (r == [] || !IsSpace(r[|r| - 1]))
            && AllSpace(s[|r|..])
  {
    if s != [] && IsSpace(s[|s| - 1]) {
      var p := s[..|s| - 1];
      TrimEndDrops(p);
      var r := TrimEnd(s);
      assert s[|r|..] == p[|r|..] + [s[|s| - 1]];
    }
  }

  /** What `trim` keeps: a contiguous slice of `s`, only white space around it, and no white
      space at either of its own ends. */
  lemma TrimIsInnerSlice(s: string)
    ensures exists i :: 0 <= i <= |s| - |Trim(s)| && Trim(s) == s[i..i + |Trim(s)|]
                        && AllSpace(s[..i]) && AllSpace(s[i + |Trim(s)|..])
    ensures Trim(s) == [] || (!IsSpace(Trim(s)[0]) && !IsSpace(Trim(s)[|Trim(s)| - 1]))
  {
    var t := TrimStart(s);
    var r := TrimEnd(t);
    TrimStartDrops(s);
    TrimEndDrops(t);
    var i := |s| - |t|;
    assert r == s[i..i + |r|];
    assert s[i + |r|..] == t[|r|..];
  }

  /** A trimmed field is empty exactly when the field holds nothing but white space, which is
      how the scripts' truthiness test `if (trimmed)` reads. */
  lemma TrimEmptyIff(s: string)
    ensures Trim(s) == [] <==> AllSpace(s)
  {
    var t := TrimStart(s);
    TrimStartDrops(s);
    TrimEndDrops(t);
    assert s == s[..|s| - |t|] + t;
    if Trim(s) == [] {
      assert t[|TrimEnd(t)|..] == t;
    }
  }

  // ---------------------------------------------------------------------------------------
  // Decimal digits, String(n), padStart, slice(-k) and parseInt(s, 10)
  // ---------------------------------------------------------------------------------------

  predicate IsDigit(c: char) {
    '0' <= c <= '9'
  }

  ghost predicate AllDigits(s: string) {
    forall k :: 0 <= k < |s| ==> IsDigit(s[k])
  }

  function DigitValue(c: char): (d: nat)
    requires IsDigit(c)
    ensures d < 10
  {
    c as int - '0' as int
  }

  function DigitChar(d: nat): (c: char)
    requires d < 10
    ensures IsDigit(c) && DigitValue(c) == d
  {
    ('0' as int + d) as char
  }

  function Pow10(k: nat): (p: nat)
    ensures p >= 1
  {
    if k == 0 then 1 else 10 * Pow10(k - 1)
  }

  /** The number a string of decimal digits denotes; leading zeros add nothing. */
  function Value(s: string): nat
    requires AllDigits(s)
  {
    if s == [] then 0 else Value(s[..|s| - 1]) * 10 + DigitValue(s[|s| - 1])
  }

  /** `String(n)` for a whole number `n >= 0`: its shortest decimal spelling. */
  function Decimal(n: nat): (s: string)
    ensures AllDigits(s) && 1 <= |s|
    ensures |s| > 1 ==> s[0] != '0'
  {
    if n < 10 then [DigitChar(n)] else Decimal(n / 10) + [DigitChar(n % 10)]
  }

  /** Template-literal spelling of an integer, with a leading minus sign when negative. */
  function IntToString(i: int): string
  {
    if i < 0 then "-" + Decimal(-i) else Decimal(i)
  }

  /** `s.padStart(n, c)`. */
  function PadStart(s: string, n: nat, c: char): (r: string)
    ensures |r| == if |s| >= n then |s| else n
    ensures r[|r| - |s|..] == s
    ensures forall k :: 0 <= k < |r| - |s| ==> r[k] == c
  {
    if |s| >= n then s else seq(n - |s|, _ => c) + s
  }

  /** `s.slice(-k)` for `k >= 1`: the last `k` characters, or all of `s` when it is shorter. */
  function SliceLast(s: string, k: nat): (r: string)
    ensures |r| == if |s| <= k then |s| else k
    ensures r == s[|s| - |r|..]
  {
    if |s| <= k then s else s[|s| - k..]
  }

  /** The longest prefix of `s` made of decimal digits. */
  function DigitPrefix(s: string): (r: string)
    ensures |r| <= |s| && r == s[..|r|] && AllDigits(r)
    ensures |r| < |s| ==> !IsDigit(s[|r|])
  {
    if s != [] && IsDigit(s[0]) then [s[0]] + DigitPrefix(s[1..]) else []
  }

  /** `parseInt(s, 10)`: skip leading white space, take one optional sign, then the longest run
      of decimal digits; `None` stands for NaN (no digit at all). A negative zero is `0`. */
  function ParseInt(s: string): (r: Option<int>)
  {
    var t := TrimStart(s);
    var negative := t != [] && t[0] == '-';
    var u := if t != [] && (t[0] == '-' || t[0] == '+') then t[1..] else t;
    var z := DigitPrefix(u);
    var v: int := if z == [] then 0 else Value(z);
    if z == [] then None else Some(if negative then -v else v)
  }

  lemma {:induction false} ValueConcat(a: string, b: string)
    requires AllDigits(a) && AllDigits(b)
    ensures AllDigits(a + b)
    ensures Value(a + b) == Value(a) * Pow10(|b|) + Value(b)
  {
    assert AllDigits(a + b) by {
      forall k | 0 <= k < |a + b| ensures IsDigit((a + b)[k]) {
        if k < |a| { assert (a + b)[k] == a[k]; } else { assert (a + b)[k] == b[k - |a|]; }
      }
    }
    if b != [] {
      var b' := b[..|b| - 1];
      assert (a + b)[..|a + b| - 1] == a + b';
      ValueConcat(a, b');
      var x, y, p := Value(a), Value(b'), Pow10(|b'|);
      assert Value(a + b) == (x * p + y) * 10 + DigitValue(b[|b| - 1]);
      assert Value(b) == y * 10 + DigitValue(b[|b| - 1]);
      assert Pow10(|b|) == p * 10;
      ShiftTen(x, p);
    } else {
      assert a + b == a;
    }
  }

  lemma ShiftTen(x: nat, p: nat)
    ensures (x * p) * 10 == x * (p * 10)
  {
  }

  lemma {:induction false} ValueBelowPow10(s: string)
    requires AllDigits(s)
    ensures Value(s) < Pow10(|s|)
  {
    if s != [] {
      ValueBelowPow10(s[..|s| - 1]);
    }
  }

  lemma {:induction false} ValueOfDecimal(n: nat)
    ensures Value(Decimal(n)) == n
  {
    if n >= 10 {
      ValueOfDecimal(n / 10);
      var d := Decimal(n);
      assert d[..|d| - 1] == Decimal(n / 10);
    }
  }

  lemma {:induction false} DecimalShort(n: nat, k: nat)
    requires 1 <= k && n < Pow10(k)
    ensures |Decimal(n)| <= k
  {
    if n >= 10 {
      assert k >= 2;
      assert n / 10 < Pow10(k - 1);
      DecimalShort(n / 10, k - 1);
    }
  }

  /** Leading zeros add nothing to the value. */
  lemma ValueOfZeroPadding(s: string, n: nat)
    requires AllDigits(s)
    ensures AllDigits(PadStart(s, n, '0')) && Value(PadStart(s, n, '0')) == Value(s)
  {
    if |s| < n {
      var z: string := seq(n - |s|, _ => '0');
      ValueOfZeros(z);
      ValueConcat(z, s);
      assert PadStart(s, n, '0') == z + s;
    }
  }

  lemma {:induction false} ValueOfZeros(z: string)
    requires forall k :: 0 <= k < |z| ==> z[k] == '0'
    ensures AllDigits(z) && Value(z) == 0
  {
    if z != [] {
      ValueOfZeros(z[..|z| - 1]);
    }
  }

  /** Splitting a digit string before its last `k` digits splits its value into a multiple
      of `10^k` and a remainder below `10^k`. */
  lemma ValueOfSuffix(s: string, k: nat)
    requires AllDigits(s) && k <= |s|
    ensures AllDigits(s[..|s| - k]) && AllDigits(s[|s| - k..])
    ensures Value(s) == Value(s[..|s| - k]) * Pow10(k) + Value(s[|s| - k..])
    ensures Value(s[|s| - k..]) < Pow10(k)
  {
    var a, b := s[..|s| - k], s[|s| - k..];
    assert s == a + b;
    assert AllDigits(a) && AllDigits(b) by {
      forall j | 0 <= j < |a| ensures IsDigit(a[j]) { assert a[j] == s[j]; }
      forall j | 0 <= j < |b| ensures IsDigit(b[j]) { assert b[j] == s[|s| - k + j]; }
    }
    ValueConcat(a, b);
    ValueBelowPow10(b);
  }

  /** `parseInt` reads a string of digits as the number those digits spell. */
  lemma ParseIntOfDigits(s: string)
    requires s != [] && AllDigits(s)
    ensures ParseInt(s) == Some(Value(s))
  {
    assert !IsSpace(s[0]);
    assert TrimStart(s) == s;
    DigitPrefixOfDigits(s);
  }

  lemma {:induction false} DigitPrefixOfDigits(s: string)
    requires AllDigits(s)
    ensures DigitPrefix(s) == s
  {
    if s != [] {
      DigitPrefixOfDigits(s[1..]);
    }
  }

  // ---------------------------------------------------------------------------------------
  // substring and toUpperCase
  // ---------------------------------------------------------------------------------------

  function Clamp(x: int, n: nat): (r: nat)
    ensures r <= n
  {
    if x < 0 then 0 else if x > n then n else x
  }

  /** `s.substring(a, b)`: both bounds clamped to `[0, |s|]`, swapped when out of order. */
  function Substring(s: string, a: int, b: int): (r: string)
  {
    var lo, hi := Clamp(a, |s|), Clamp(b, |s|);
    if lo <= hi then s[lo..hi] else s[hi..lo]
  }

  /** `toUpperCase` on one character of the alphabets the scripts feed it (ASCII). */
  function UpperAscii(c: char): (u: char)
  {
    if 'a' <= c <= 'z' then (c as int - 32) as char else c
  }

  function ToUpperAscii(s: string): (r: string)
    ensures |r| == |s|
    ensures forall k :: 0 <= k < |s| ==> r[k] == UpperAscii(s[k])
  {
    seq(|s|, k requires 0 <= k < |s| => UpperAscii(s[k]))
  }

  // ---------------------------------------------------------------------------------------
  // UTF-16: what `length` counts and what the default `sort` compares
  // ---------------------------------------------------------------------------------------

  /** The UTF-16 code units of one character: itself below U+10000, otherwise its high and low
      surrogates. */
  function CodeUnits(c: char): (u: seq<int>)
    ensures 1 <= |u| <= 2
  {
    var v := c as int;
    if v < 0x10000 then [v]
    else [0xD800 + (v - 0x10000) / 0x400, 0xDC00 + (v - 0x10000) % 0x400]
  }

  /** A JavaScript string: the UTF-16 code units of `s`, in order. */
  function Utf16(s: string): (u: seq<int>)
    ensures |s| <= |u| <= 2 * |s|
  {
    if s == [] then [] else CodeUnits(s[0]) + Utf16(s[1..])
  }

  /** `s.length`: the number of UTF-16 code units, which a character above U+FFFF counts twice. */
  function Length(s: string): nat
  {
    |Utf16(s)|
  }

  /** `a` sorts strictly before `b` under the default comparison of `Array.prototype.sort` on
      strings: `a` is a proper prefix of `b`, or at the first place they differ `a` has the
      smaller code unit. */
  predicate UnitsLess(a: seq<int>, b: seq<int>)
  {
    if a == [] then b != []
    else b != [] && (a[0] < b[0] || (a[0] == b[0] && UnitsLess(a[1..], b[1..])))
  }

  /** The first code unit of a character: the character itself, or its high surrogate. */
  function FirstUnit(c: char): int
  {
    CodeUnits(c)[0]
  }

  /** Where a character falls under code-unit comparison. Characters above U+FFFF begin with a
      surrogate (U+D800 to U+DBFF), so they come after U+0000 to U+D7FF and before U+E000 to
      U+FFFF, and among themselves in code-point order. */
  function SortKey(c: char): int
  {
    var v := c as int;
    if 0xE000 <= v < 0x10000 then v + 0x110000 else v
  }

  /** The order of single characters under code-unit comparison. */
  predicate CharBefore(c: char, d: char)
  {
    SortKey(c) < SortKey(d)
  }

  /** The default string order, one character at a time. */
  predicate LexLess(a: string, b: string)
  {
    if a == [] then b != []
    else b != [] && (CharBefore(a[0], b[0]) || (a[0] == b[0] && LexLess(a[1..], b[1..])))
  }

  /** Comparing character by character is the default `sort`'s comparison of the UTF-16 code
      units. */
  lemma {:induction false} LexLessIsUtf16Order(a: string, b: string)
    ensures LexLess(a, b) <==> UnitsLess(Utf16(a), Utf16(b))
  {
    if a != [] && b != [] {
      var x, y := Utf16(a[1..]), Utf16(b[1..]);
      assert Utf16(a) == CodeUnits(a[0]) + x;
      assert Utf16(b) == CodeUnits(b[0]) + y;
      if a[0] == b[0] {
        UnitsLessCommonPrefix(CodeUnits(a[0]), x, y);
        LexLessIsUtf16Order(a[1..], b[1..]);
      } else {
        CharBeforeIsUnitsLess(a[0], b[0], x, y);
      }
    }
  }

  lemma {:induction false} UnitsLessCommonPrefix(p: seq<int>, x: seq<int>, y: seq<int>)
    ensures UnitsLess(p + x, p + y) <==> UnitsLess(x, y)
  {
    if p != [] {
      assert (p + x)[1..] == p[1..] + x;
      assert (p + y)[1..] == p[1..] + y;
      UnitsLessCommonPrefix(p[1..], x, y);
    } else {
      assert p + x == x && p + y == y;
    }
  }

  /** Two different characters are ordered by their code units, whatever follows them. */
  lemma CharBeforeIsUnitsLess(c: char, d: char, x: seq<int>, y: seq<int>)
    requires c != d
    ensures CharBefore(c, d) <==> UnitsLess(CodeUnits(c) + x, CodeUnits(d) + y)
  {
    var u, w := CodeUnits(c) + x, CodeUnits(d) + y;
    assert u[0] == FirstUnit(c) && w[0] == FirstUnit(d);
    if FirstUnit(c) == FirstUnit(d) {
      // A character is never a surrogate, so both lie above U+FFFF and share a high surrogate.
      assert c as int >= 0x10000 && d as int >= 0x10000;
      assert (c as int - 0x10000) % 0x400 != (d as int - 0x10000) % 0x400;
      assert u[1..][0] == 0xDC00 + (c as int - 0x10000) % 0x400;
      assert w[1..][0] == 0xDC00 + (d as int - 0x10000) % 0x400;
    }
  }

  /** A character above U+FFFF sorts after one of the private-use area just below it: the
      default order is not the order of code points. */
  lemma SortIsNotCodePointOrder()
    ensures '\U{E000}' < '\U{10000}' && LexLess("\U{10000}", "\U{E000}")
  {
  }

  lemma {:induction false} LexIrreflexive(a: string)
    ensures !LexLess(a, a)
  {
    if a != [] {
      LexIrreflexive(a[1..]);
    }
  }

  lemma {:induction false} LexTransitive(a: string, b: string, c: string)
    requires LexLess(a, b) && LexLess(b, c)
    ensures LexLess(a, c)
  {
    if a != [] && a[0] == b[0] && b[0] == c[0] {
      LexTransitive(a[1..], b[1..], c[1..]);
    }
  }

  lemma {:induction false} LexTotal(a: string, b: string)
    requires a != b
    ensures LexLess(a, b) || LexLess(b, a)
  {
    if a != [] && b != [] && a[0] == b[0] {
      LexTotal(a[1..], b[1..]);
    }
  }

  /** Strictly ascending in the default string order. */
  ghost predicate Sorted(ks: seq<string>) {
    forall i, j :: 0 <= i < j < |ks| ==> LexLess(ks[i], ks[j])
  }

  /** A sorted sequence is strictly ascending in the UTF-16 code units of its strings, which
      is the order `sort` uses when given no comparator. */
  lemma SortedIsUtf16Order(ks: seq<string>)
    requires Sorted(ks)
    ensures forall i, j :: 0 <= i < j < |ks| ==> UnitsLess(Utf16(ks[i]), Utf16(ks[j]))
  {
    forall i, j | 0 <= i < j < |ks| ensures UnitsLess(Utf16(ks[i]), Utf16(ks[j])) {
      LexLessIsUtf16Order(ks[i], ks[j]);
    }
  }

  /** Places `x` into a sorted sequence that does not hold it yet. */
  function Insert(ks: seq<string>, x: string): (r: seq<string>)
    requires Sorted(ks) && x !in ks
    ensures Sorted(r) && |r| == |ks| + 1
    ensures forall y :: y in r <==> y in ks || y == x
  {
    if ks == [] then [x]
    else if LexLess(x, ks[0]) then
      assert forall j :: 0 < j < |ks| ==> LexLess(x, ks[j]) by {
        forall j | 0 < j < |ks| ensures LexLess(x, ks[j]) {
          LexTransitive(x, ks[0], ks[j]);
        }
      }
      [x] + ks
    else
      LexTotal(x, ks[0]);
      var rest := Insert(ks[1..], x);
      assert forall y :: y in rest ==> LexLess(ks[0], y) by {
        forall y | y in rest ensures LexLess(ks[0], y) {
          if y != x {
            var j :| 0 <= j < |ks[1..]| && ks[1..][j] == y;
            assert ks[j + 1] == y;
          }
        }
      }
      [ks[0]] + rest
  }

  /** `Object.keys(o).sort()`: every key once, in strictly ascending order of UTF-16 code units
      (`Sorted`, which `SortedIsUtf16Order` ties to the code units). */
  method SortedKeys<V>(m: map<string, V>) returns (ks: seq<string>)
    ensures Sorted(ks) && |ks| == |m|
    ensures forall y :: y in ks <==> y in m
  {
    ks := [];
    var rest := m.Keys;
    while rest != {}
      invariant rest <= m.Keys && Sorted(ks)
      invariant forall y :: y in ks <==> y in m && y !in rest
      invariant |ks| + |rest| == |m|
      decreases |rest|
    {
      var x :| x in rest;
      ks := Insert(ks, x);
      rest := rest - {x};
    }
  }
}
