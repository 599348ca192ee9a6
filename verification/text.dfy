/** String primitives of the two host languages, as the core uses them: decimal rendering,
    single-character split and join, whitespace trimming, ASCII lower-casing, substring
    search and JavaScript's `parseInt`. Strings are sequences of characters. */
module Text {

  // ---------------------------------------------------------------- digits

  predicate IsDigit(c: char) {
    '0' <= c <= '9'
  }

  predicate IsAlnum(c: char) {
    '0' <= c <= '9' || 'a' <= c <= 'z' || 'A' <= c <= 'Z'
  }

  /** The digit value of a letter or decimal digit in any radix up to 36 ('a' and 'A' are 10). */
  function AlnumValue(c: char): nat
    requires IsAlnum(c)
  {
    if '0' <= c <= '9' then c as int - '0' as int
    else if 'a' <= c <= 'z' then c as int - 'a' as int + 10
    else c as int - 'A' as int + 10
  }

  predicate IsRadixDigit(c: char, radix: nat) {
    IsAlnum(c) && AlnumValue(c) < radix
  }

  predicate AllRadixDigits(s: string, radix: nat) {
    forall i :: 0 <= i < |s| ==> IsRadixDigit(s[i], radix)
  }

  function DigitChar(d: nat): (c: char)
    requires d < 10
    ensures IsDigit(c) && IsRadixDigit(c, 10) && AlnumValue(c) == d
  {
    ('0' as int + d) as char
  }

  /** The value of a numeral, most significant digit first. */
  function DigitsValue(s: string, radix: nat): nat
    requires AllRadixDigits(s, radix)
    decreases |s|
  {
    if |s| == 0 then 0
    else DigitsValue(s[..|s| - 1], radix) * radix + AlnumValue(s[|s| - 1])
  }

  /** The decimal numeral of `n` without leading zeros, as `String(n)` in JavaScript
      and `strconv.Itoa` in Go print a non-negative integer. */
  function NatToString(n: nat): (r: string)
    ensures |r| >= 1
    ensures forall i :: 0 <= i < |r| ==> IsDigit(r[i])
    ensures r[0] == '0' ==> n == 0
    ensures |r| == 1 <==> n < 10
    decreases n
  {
    if n < 10 then [DigitChar(n)] else NatToString(n / 10) + [DigitChar(n % 10)]
  }

  /** Reading back a rendered numeral gives the number. */
  lemma {:induction false} NatToStringRoundTrip(n: nat)
    ensures AllRadixDigits(NatToString(n), 10)
    ensures DigitsValue(NatToString(n), 10) == n
    decreases n
  {
    var r := NatToString(n);
    assert AllRadixDigits(r, 10) by {
      forall i | 0 <= i < |r| ensures IsRadixDigit(r[i], 10) {
        assert IsDigit(r[i]);
      }
    }
    if n >= 10 {
      NatToStringRoundTrip(n / 10);
      assert r[..|r| - 1] == NatToString(n / 10);
    }
  }

  /** Distinct numbers render differently. */
  lemma NatToStringInjective(a: nat, b: nat)
    requires NatToString(a) == NatToString(b)
    ensures a == b
  {
    NatToStringRoundTrip(a);
    NatToStringRoundTrip(b);
  }

  /** The decimal numeral of an integer, with a leading '-' when negative. */
  function IntToString(i: int): (r: string)
    ensures |r| >= 1
    ensures (r[0] == '-') <==> i < 0
  {
    if i < 0 then "-" + NatToString(-i) else NatToString(i)
  }

  /** `n` in decimal, left-padded with '0' to at least `width` characters. */
  function PadNat(n: nat, width: nat): (r: string)
    ensures |r| == if |NatToString(n)| < width then width else |NatToString(n)|
    ensures forall i :: 0 <= i < |r| ==> IsDigit(r[i])
  {
    var digits := NatToString(n);
    if |digits| < width then seq(width - |digits|, _ => '0') + digits else digits
  }

  /** Leading zeros do not change the value of a numeral. */
  lemma {:induction false} LeadingZerosValue(k: nat, s: string, radix: nat)
    requires AllRadixDigits(s, radix) && radix >= 1
    ensures AllRadixDigits(seq(k, _ => '0') + s, radix)
    ensures DigitsValue(seq(k, _ => '0') + s, radix) == DigitsValue(s, radix)
    decreases |s|
  {
    var z := seq(k, _ => '0');
    var t := z + s;
    assert AllRadixDigits(t, radix) by {
      forall i | 0 <= i < |t| ensures IsRadixDigit(t[i], radix) {
        if i < k { assert t[i] == '0'; } else { assert t[i] == s[i - k]; }
      }
    }
    if |s| == 0 {
      assert t == z;
      ZerosValue(k, radix);
    } else {
      LeadingZerosValue(k, s[..|s| - 1], radix);
      assert t[..|t| - 1] == z + s[..|s| - 1];
      assert t[|t| - 1] == s[|s| - 1];
    }
  }

  lemma {:induction false} ZerosValue(k: nat, radix: nat)
    requires radix >= 1
    ensures AllRadixDigits(seq(k, _ => '0'), radix)
    ensures DigitsValue(seq(k, _ => '0'), radix) == 0
    decreases k
  {
    if k > 0 {
      ZerosValue(k - 1, radix);
      assert seq(k, _ => '0')[..k - 1] == seq(k - 1, _ => '0');
    }
  }

  /** Reading back a padded numeral gives the number. */
  lemma PadNatRoundTrip(n: nat, width: nat)
    ensures AllRadixDigits(PadNat(n, width), 10)
    ensures DigitsValue(PadNat(n, width), 10) == n
  {
    var digits := NatToString(n);
    NatToStringRoundTrip(n);
    if |digits| < width {
      LeadingZerosValue(width - |digits|, digits, 10);
    }
  }

  // ---------------------------------------------------------------- split and join

  /** Splitting on one separator character, as JavaScript's `s.split(" ")` and Go's
      `strings.Split(s, ";")` do: n separators give n + 1 pieces, "" gives [""]. */
  function Split(s: string, sep: char): (r: seq<string>)
    ensures |r| >= 1
    ensures forall i :: 0 <= i < |r| ==> sep !in r[i]
    decreases |s|
  {
    if |s| == 0 then [""]
    else
      var rest := Split(s[1..], sep);
      if s[0] == sep then [""] + rest
      else [[s[0]] + rest[0]] + rest[1..]
  }

  /** The pieces glued back together with the separator between them. */
  function Join(parts: seq<string>, sep: char): string
    decreases |parts|
  {
    if |parts| == 0 then ""
    else if |parts| == 1 then parts[0]
    else parts[0] + [sep] + Join(parts[1..], sep)
  }

  /** Splitting loses nothing: joining the pieces rebuilds the input. */
  lemma {:induction false} JoinSplit(s: string, sep: char)
    ensures Join(Split(s, sep), sep) == s
    decreases |s|
  {
    if |s| > 0 {
      JoinSplit(s[1..], sep);
      var rest := Split(s[1..], sep);
      if s[0] == sep {
        assert ([""] + rest)[1..] == rest;
        assert s == [sep] + s[1..];
      } else {
        var parts := [[s[0]] + rest[0]] + rest[1..];
        if |rest| == 1 {
          assert s == [s[0]] + s[1..];
        } else {
          assert parts[1..] == rest[1..];
          assert Join(rest, sep) == rest[0] + [sep] + Join(rest[1..], sep);
          assert s == [s[0]] + s[1..];
        }
      }
    }
  }

  /** A piece without the separator splits to itself. */
  lemma {:induction false} SplitNoSeparator(a: string, sep: char)
    requires sep !in a
    ensures Split(a, sep) == [a]
    decreases |a|
  {
    if |a| > 0 {
      SplitNoSeparator(a[1..], sep);
      assert [a[0]] + a[1..] == a;
    }
  }

  /** A separator-free piece followed by a separator splits off as the first piece. */
  lemma {:induction false} SplitAtSeparator(a: string, b: string, sep: char)
    requires sep !in a
    ensures Split(a + [sep] + b, sep) == [a] + Split(b, sep)
    decreases |a|
  {
    var s := a + [sep] + b;
    if |a| == 0 {
      assert s[1..] == b;
    } else {
      assert s[1..] == a[1..] + [sep] + b;
      SplitAtSeparator(a[1..], b, sep);
      assert [a[0]] + a[1..] == a;
    }
  }

  /** Joining separator-free pieces and splitting again gives the pieces back. */
  lemma {:induction false} SplitJoin(parts: seq<string>, sep: char)
    requires |parts| >= 1
    requires forall i :: 0 <= i < |parts| ==> sep !in parts[i]
    ensures Split(Join(parts, sep), sep) == parts
    decreases |parts|
  {
    if |parts| == 1 {
      SplitNoSeparator(parts[0], sep);
    } else {
      SplitJoin(parts[1..], sep);
      SplitAtSeparator(parts[0], Join(parts[1..], sep), sep);
      assert [parts[0]] + parts[1..] == parts;
    }
  }

  lemma JoinPair(a: string, b: string, sep: char)
    ensures Join([a, b], sep) == a + [sep] + b
  {
    assert [a, b][1..] == [b];
  }

  /** A pair of separator-free pieces splits back into the pair. */
  lemma SplitPair(a: string, b: string, sep: char)
    requires sep !in a && sep !in b
    ensures Split(a + [sep] + b, sep) == [a, b]
  {
    JoinPair(a, b, sep);
    SplitJoin([a, b], sep);
  }

  lemma {:induction false} JoinSnoc(parts: seq<string>, b: string, sep: char)
    requires |parts| >= 1
    ensures Join(parts + [b], sep) == Join(parts, sep) + [sep] + b
    decreases |parts|
  {
    if |parts| == 1 {
      JoinPair(parts[0], b, sep);
      assert parts + [b] == [parts[0], b];
    } else {
      assert (parts + [b])[1..] == parts[1..] + [b];
      JoinSnoc(parts[1..], b, sep);
    }
  }

  /** Joining two non-empty lists of pieces is joining each and putting a separator between. */
  lemma {:induction false} JoinAppend(p: seq<string>, q: seq<string>, sep: char)
    requires |p| >= 1 && |q| >= 1
    ensures Join(p + q, sep) == Join(p, sep) + [sep] + Join(q, sep)
    decreases |p|
  {
    if |p| == 1 {
      assert (p + q)[1..] == q;
      assert p + q == [p[0]] + q;
    } else {
      JoinAppend(p[1..], q, sep);
      assert (p + q)[1..] == p[1..] + q;
    }
  }

  /** Splitting around one separator splits each side. */
  lemma SplitConcat(x: string, y: string, sep: char)
    ensures Split(x + [sep] + y, sep) == Split(x, sep) + Split(y, sep)
  {
    var p := Split(x, sep);
    var q := Split(y, sep);
    JoinSplit(x, sep);
    JoinSplit(y, sep);
    JoinAppend(p, q, sep);
    PiecesAppend(p, q, sep);
    SplitJoin(p + q, sep);
  }

  lemma PiecesAppend(p: seq<string>, q: seq<string>, sep: char)
    requires forall i :: 0 <= i < |p| ==> sep !in p[i]
    requires forall i :: 0 <= i < |q| ==> sep !in q[i]
    ensures forall i :: 0 <= i < |p + q| ==> sep !in (p + q)[i]
  {
    forall i | 0 <= i < |p + q| ensures sep !in (p + q)[i] {
      if i < |p| {
        assert (p + q)[i] == p[i];
      } else {
        assert (p + q)[i] == q[i - |p|];
      }
    }
  }

  /** The last piece of a split is a suffix of the string, preceded by a separator unless
      it is the whole string. */
  lemma SplitLast(s: string, sep: char)
    ensures var parts := Split(s, sep); var last := parts[|parts| - 1];
      && |last| <= |s| && s[|s| - |last|..] == last
      && (|parts| == 1 ==> last == s)
      && (|parts| >= 2 ==> |last| < |s| && s[|s| - |last| - 1] == sep)
  {
    var parts := Split(s, sep);
    var last := parts[|parts| - 1];
    JoinSplit(s, sep);
    if |parts| >= 2 {
      var init := parts[..|parts| - 1];
      assert parts == init + [last];
      JoinSnoc(init, last, sep);
      LastAfterSeparator(Join(init, sep), sep, last);
    }
  }

  lemma LastAfterSeparator(h: string, sep: char, last: string)
    ensures var s := h + [sep] + last;
      |last| < |s| && s[|s| - |last|..] == last && s[|s| - |last| - 1] == sep
  {
  }

  // ---------------------------------------------------------------- whitespace

  /** The characters JavaScript's `String.prototype.trim` and `parseInt` skip: the
      WhiteSpace and LineTerminator code points of ECMAScript (section 12.2 and 12.3 of
      ECMA-262), including U+FEFF but not U+0085. */
  predicate IsJsSpace(c: char) {
    c in {'\t', '\n', '\U{000B}', '\U{000C}', '\r', ' ', '\U{00A0}', '\U{1680}',
          '\U{2028}', '\U{2029}', '\U{202F}', '\U{205F}', '\U{3000}', '\U{FEFF}'}
    || '\U{2000}' <= c <= '\U{200A}'
  }

  /** The characters Go's `strings.TrimSpace` removes (`unicode.IsSpace`): the Unicode
      White_Space property, including U+0085 but not U+FEFF. */
  predicate IsGoSpace(c: char) {
    c in {'\t', '\n', '\U{000B}', '\U{000C}', '\r', ' ', '\U{0085}', '\U{00A0}', '\U{1680}',
          '\U{2028}', '\U{2029}', '\U{202F}', '\U{205F}', '\U{3000}'}
    || '\U{2000}' <= c <= '\U{200A}'
  }

  /** `s` without its leading characters satisfying `ws`. */
  function TrimLeft(s: string, ws: char -> bool): (r: string)
    ensures |r| <= |s| && r == s[|s| - |r|..]
    ensures forall i :: 0 <= i < |s| - |r| ==> ws(s[i])
    ensures |r| > 0 ==> !ws(r[0])
    decreases |s|
  {
    if |s| > 0 && ws(s[0]) then TrimLeft(s[1..], ws) else s
  }

  /** `s` without its trailing characters satisfying `ws`. */
  function TrimRight(s: string, ws: char -> bool): (r: string)
    ensures |r| <= |s| && r == s[..|r|]
    ensures forall i :: |r| <= i < |s| ==> ws(s[i])
    ensures |r| > 0 ==> !ws(r[|r| - 1])
    decreases |s|
  {
    if |s| > 0 && ws(s[|s| - 1]) then TrimRight(s[..|s| - 1], ws) else s
  }

  /** `s` with whitespace (as `ws` defines it) removed from both ends. */
  function Trim(s: string, ws: char -> bool): (r: string)
    ensures |r| <= |s|
    ensures |r| > 0 ==> !ws(r[0]) && !ws(r[|r| - 1])
  {
    TrimRight(TrimLeft(s, ws), ws)
  }

  /** What trimming keeps is a contiguous piece of the string. */
  lemma TrimIsSlice(s: string, ws: char -> bool)
    ensures var k := |s| - |TrimLeft(s, ws)|;
      k + |Trim(s, ws)| <= |s| && Trim(s, ws) == s[k..k + |Trim(s, ws)|]
  {
  }

  /** Trimming leaves nothing exactly when every character is whitespace. */
  lemma TrimEmptyIffBlank(s: string, ws: char -> bool)
    ensures Trim(s, ws) == [] <==> IsBlank(s, ws)
  {
    var left := TrimLeft(s, ws);
    var r := TrimRight(left, ws);
    if |left| > 0 {
      assert left[0] == s[|s| - |left|];
      assert |r| > 0;
    }
  }

  /** A string that is empty once trimmed: JavaScript's `!s.trim()`. */
  predicate IsBlank(s: string, ws: char -> bool) {
    forall i :: 0 <= i < |s| ==> ws(s[i])
  }

  // ---------------------------------------------------------------- case and search

  /** Lower-casing of one character, restricted to the ASCII letters. */
  function LowerChar(c: char): char {
    if 'A' <= c <= 'Z' then (c as int - 'A' as int + 'a' as int) as char else c
  }

  /** `s.toLowerCase()` on the ASCII letters. */
  function Lower(s: string): (r: string)
    ensures |r| == |s|
    ensures forall i :: 0 <= i < |s| ==> r[i] == LowerChar(s[i])
  {
    seq(|s|, i requires 0 <= i < |s| => LowerChar(s[i]))
  }

  predicate StartsWith(s: string, prefix: string) {
    |prefix| <= |s| && s[..|prefix|] == prefix
  }

  predicate EndsWith(s: string, suffix: string) {
    |suffix| <= |s| && s[|s| - |suffix|..] == suffix
  }

  /** `s.includes(t)`: `t` occurs somewhere in `s`; the empty string occurs everywhere. */
  predicate Contains(s: string, t: string)
    decreases |s|
  {
    StartsWith(s, t) || (|s| > 0 && Contains(s[1..], t))
  }

  /** `Contains` agrees with "there is a position where `t` starts". */
  lemma {:induction false} ContainsAt(s: string, t: string, i: nat)
    requires i + |t| <= |s| && s[i..i + |t|] == t
    ensures Contains(s, t)
    decreases i
  {
    if i > 0 {
      assert s[1..][i - 1..i - 1 + |t|] == s[i..i + |t|];
      ContainsAt(s[1..], t, i - 1);
    }
  }

  /** `s.replace(/x/g, y)` for single characters. */
  function ReplaceChar(s: string, x: char, y: char): (r: string)
    ensures |r| == |s|
    ensures forall i :: 0 <= i < |s| ==> r[i] == (if s[i] == x then y else s[i])
  {
    seq(|s|, i requires 0 <= i < |s| => if s[i] == x then y else s[i])
  }

  // ---------------------------------------------------------------- parseInt

  /** A JavaScript number as `parseInt` produces it: an integer or NaN. */
  datatype JsNumber = Number(value: int) | NaN

  /** The longest prefix of `s` made of digits of the given radix. */
  function LeadingDigits(s: string, radix: nat): (r: string)
    ensures |r| <= |s| && r == s[..|r|]
    ensures AllRadixDigits(r, radix)
    ensures |r| < |s| ==> !IsRadixDigit(s[|r|], radix)
    decreases |s|
  {
    if |s| > 0 && IsRadixDigit(s[0], radix) then [s[0]] + LeadingDigits(s[1..], radix) else ""
  }

  /** JavaScript's `parseInt(s)` with no radix: skip leading whitespace, read an optional
      sign, switch to radix 16 after "0x" or "0X", then read as many digits as possible;
      no digits at all gives NaN. */
  function ParseInt(s: string): JsNumber {
    ParseSigned(TrimLeft(s, IsJsSpace))
  }

  /** The text after the white space: an optional sign, then the magnitude. */
  function ParseSigned(t: string): JsNumber {
    var negative := |t| > 0 && t[0] == '-';
    var u := if |t| > 0 && (t[0] == '-' || t[0] == '+') then t[1..] else t;
    match ParseMagnitude(u)
    case NaN => NaN
    case Number(m) => Number(if negative then -m else m)
  }

  /** The digits after the sign, in radix 16 after "0x" or "0X" and 10 otherwise. */
  function ParseMagnitude(u: string): JsNumber {
    var hex := |u| >= 2 && u[0] == '0' && (u[1] == 'x' || u[1] == 'X');
    var radix := if hex then 16 else 10;
    var digits := LeadingDigits(if hex then u[2..] else u, radix);
    if |digits| == 0 then NaN else Number(DigitsValue(digits, radix))
  }

  /** `String(x)`, or `${x}` in a template, of such a number. */
  function NumberText(n: JsNumber): string {
    match n
    case Number(v) => IntToString(v)
    case NaN => "NaN"
  }

  /** `parseInt` reads back every decimal numeral `String(n)` prints. */
  lemma ParseIntRoundTrip(n: nat)
    ensures ParseInt(NatToString(n)) == Number(n)
  {
    var s := NatToString(n);
    NatToStringRoundTrip(n);
    ParseDecimalDigits(s);
  }

  /** A non-empty run of decimal digits is read whole, in base 10. */
  lemma ParseDecimalDigits(s: string)
    requires |s| > 0 && AllRadixDigits(s, 10)
    requires forall i :: 0 <= i < |s| ==> IsDigit(s[i])
    ensures ParseInt(s) == Number(DigitsValue(s, 10))
  {
    NoSpaceBeforeDigit(s);
    assert IsDigit(s[0]);
    MagnitudeOfDigits(s);
  }

  lemma MagnitudeOfDigits(s: string)
    requires |s| > 0 && AllRadixDigits(s, 10)
    requires forall i :: 0 <= i < |s| ==> IsDigit(s[i])
    ensures ParseMagnitude(s) == Number(DigitsValue(s, 10))
  {
    assert |s| >= 2 ==> IsDigit(s[1]);
    LeadingDigitsOfDigits(s, 10);
  }

  /** A string starting with a digit has no leading white space to skip. */
  lemma NoSpaceBeforeDigit(s: string)
    requires |s| > 0 && IsDigit(s[0])
    ensures TrimLeft(s, IsJsSpace) == s
  {
    assert !IsJsSpace(s[0]);
  }

  lemma {:induction false} LeadingDigitsOfDigits(s: string, radix: nat)
    requires AllRadixDigits(s, radix)
    ensures LeadingDigits(s, radix) == s
    decreases |s|
  {
    if |s| > 0 {
      LeadingDigitsOfDigits(s[1..], radix);
      assert [s[0]] + s[1..] == s;
    }
  }
}
