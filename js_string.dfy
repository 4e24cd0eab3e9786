/** The parts of the JavaScript string library that the news routes rely on:
    `parseInt(s, 10)`, `String.prototype.toLowerCase` (over ASCII letters only)
    and `String.prototype.includes`. */
module JsString {

  datatype Option<T> = None | Some(value: T)

  // ---------------------------------------------------------------------------
  // parseInt(s, 10)
  // ---------------------------------------------------------------------------

  /** ECMAScript's StrWhiteSpaceChar: the WhiteSpace code points (tab, vertical
      tab, form feed, the byte order mark and every space separator of category
      Zs) and the LineTerminator code points. */
  predicate IsJsWhiteSpace(c: char) {
    var u := c as int;
    u == 0x09 || u == 0x0A || u == 0x0B || u == 0x0C || u == 0x0D
    || u == 0x20 || u == 0xA0 || u == 0x1680 || (0x2000 <= u <= 0x200A)
    || u == 0x2028 || u == 0x2029 || u == 0x202F || u == 0x205F
    || u == 0x3000 || u == 0xFEFF
  }

  /** A radix-10 digit: only the ASCII digits count. */
  predicate IsDigit(c: char) {
    '0' <= c <= '9'
  }

  predicate AllDigits(d: string) {
    forall i :: 0 <= i < |d| ==> IsDigit(d[i])
  }

  function DigitValue(c: char): (v: nat)
    requires IsDigit(c)
    ensures v < 10
  {
    c as int - '0' as int
  }

  function DigitChar(v: nat): (c: char)
    requires v < 10
    ensures IsDigit(c) && DigitValue(c) == v
  {
    ('0' as int + v) as char
  }

  /** Drops the longest prefix of white space, as parseInt's first step does. */
  function TrimStart(s: string): (t: string)
    ensures |t| <= |s|
    ensures forall i :: 0 <= i < |s| - |t| ==> IsJsWhiteSpace(s[i])
    ensures t == [] || !IsJsWhiteSpace(t[0])
  {
    if s != [] && IsJsWhiteSpace(s[0]) then TrimStart(s[1..]) else s
  }

  /** What TrimStart keeps is a suffix of its argument. */
  lemma {:induction false} TrimStartIsSuffix(s: string)
    ensures TrimStart(s) == s[|s| - |TrimStart(s)|..]
  {
    if s != [] && IsJsWhiteSpace(s[0]) {
      TrimStartIsSuffix(s[1..]);
    }
  }

  /** The length of the longest prefix of `s` made of decimal digits. */
  function DigitPrefixLength(s: string): (n: nat)
    ensures n <= |s|
    ensures AllDigits(s[..n])
    ensures n == |s| || !IsDigit(s[n])
  {
    if s == [] || !IsDigit(s[0]) then 0 else 1 + DigitPrefixLength(s[1..])
  }

  /** The mathematical value of a numeral, most significant digit first. */
  function DigitsValue(d: string): nat
    requires AllDigits(d)
  {
    if d == [] then 0 else DigitsValue(d[..|d| - 1]) * 10 + DigitValue(d[|d| - 1])
  }

  /** The digits part of parseInt: the value of the longest digit prefix, or
      NaN when there is none. */
  function ParseDigits(u: string): Option<nat> {
    var n := DigitPrefixLength(u);
    if n == 0 then None else Some(DigitsValue(u[..n]))
  }

  /** `parseInt(s, 10)`, with `None` standing for NaN: skip leading white space,
      take one optional sign, then the longest run of decimal digits; no digits
      at all gives NaN. With radix 10 no "0x" prefix is recognised. */
  function ParseInt(s: string): Option<int> {
    var t := TrimStart(s);
    if |t| > 0 && t[0] == '-' then
      match ParseDigits(t[1..])
      case None => None
      case Some(v) => Some(-(v as int))
    else if |t| > 0 && t[0] == '+' then
      match ParseDigits(t[1..])
      case None => None
      case Some(v) => Some(v)
    else
      match ParseDigits(t)
      case None => None
      case Some(v) => Some(v)
  }

  /** The shortest decimal numeral of `n`, as a client writes an id in a URL:
      no leading zero except in "0" itself. */
  function ToDecimal(n: nat): (r: string)
    ensures |r| > 0 && AllDigits(r)
    ensures DigitsValue(r) == n
    ensures n > 0 ==> r[0] != '0'
    ensures n == 0 ==> r == "0"
  {
    if n < 10 then [DigitChar(n)]
    else
      var r := ToDecimal(n / 10) + [DigitChar(n % 10)];
      assert r[..|r| - 1] == ToDecimal(n / 10);
      r
  }

  lemma {:induction false} DigitPrefixOfNumeral(d: string, rest: string)
    requires AllDigits(d)
    requires rest == [] || !IsDigit(rest[0])
    ensures DigitPrefixLength(d + rest) == |d|
  {
    if d != [] {
      assert (d + rest)[1..] == d[1..] + rest;
      DigitPrefixOfNumeral(d[1..], rest);
    }
  }

  lemma ParseDigitsNumeral(d: string, rest: string)
    requires |d| > 0 && AllDigits(d)
    requires rest == [] || !IsDigit(rest[0])
    ensures ParseDigits(d + rest) == Some(DigitsValue(d))
  {
    DigitPrefixOfNumeral(d, rest);
    assert (d + rest)[..|d|] == d;
  }

  /** A string that starts with a digit is parsed by its digits alone. */
  lemma ParseIntUnsigned(u: string)
    requires u != [] && IsDigit(u[0])
    ensures ParseDigits(u).Some?
    ensures ParseInt(u) == Some(ParseDigits(u).value)
  {
  }

  /** A leading minus sign negates the value of the digits that follow. */
  lemma ParseIntNegative(u: string)
    requires u != [] && IsDigit(u[0])
    ensures ParseDigits(u).Some?
    ensures ParseInt(['-'] + u) == Some(-(ParseDigits(u).value as int))
  {
    assert (['-'] + u)[1..] == u;
  }

  /** A leading plus sign is dropped. */
  lemma ParseIntPlus(u: string)
    requires u != [] && IsDigit(u[0])
    ensures ParseDigits(u).Some?
    ensures ParseInt(['+'] + u) == Some(ParseDigits(u).value)
  {
    assert (['+'] + u)[1..] == u;
  }

  /** A numeral followed by anything that does not start with a digit ("12",
      "007", "3abc", "1.5") parses to the numeral's value: parseInt stops at the
      first non-digit. */
  lemma ParseIntNumeral(d: string, rest: string)
    requires |d| > 0 && AllDigits(d)
    requires rest == [] || !IsDigit(rest[0])
    ensures ParseInt(d + rest) == Some(DigitsValue(d))
  {
    assert (d + rest)[0] == d[0];
    ParseDigitsNumeral(d, rest);
    ParseIntUnsigned(d + rest);
  }

  /** In particular the canonical numeral of n parses back to n. */
  lemma ParseIntToDecimal(n: nat)
    ensures ParseInt(ToDecimal(n)) == Some(n)
  {
    ParseIntNumeral(ToDecimal(n), []);
    assert ToDecimal(n) + [] == ToDecimal(n);
  }

  /** Leading white space never changes the result. */
  lemma ParseIntSkipsWhiteSpace(c: char, s: string)
    requires IsJsWhiteSpace(c)
    ensures ParseInt([c] + s) == ParseInt(s)
  {
    assert ([c] + s)[1..] == s;
  }

  /** A string with no decimal digit in it parses to NaN. */
  lemma ParseIntNoDigits(s: string)
    requires forall i :: 0 <= i < |s| ==> !IsDigit(s[i])
    ensures ParseInt(s) == None
  {
    var t := TrimStart(s);
    TrimStartIsSuffix(s);
    if |t| > 1 {
      assert t[1] == s[|s| - |t| + 1];
    }
    if |t| > 0 {
      assert t[0] == s[|s| - |t|];
    }
  }

  /** Every character is ECMAScript white space. */
  predicate AllWhiteSpace(w: string) {
    forall i :: 0 <= i < |w| ==> IsJsWhiteSpace(w[i])
  }

  /** The signs parseInt accepts before the digits: none, one '-' or one '+'. */
  predicate IsSign(sign: string) {
    sign == [] || sign == ['-'] || sign == ['+']
  }

  function Signed(sign: string, n: nat): int {
    if sign == ['-'] then -(n as int) else n
  }

  /** The digits part splits its input into the digit run it read and the rest. */
  lemma ParseDigitsParts(u: string, m: nat) returns (d: string, rest: string)
    requires ParseDigits(u) == Some(m)
    ensures u == d + rest
    ensures |d| > 0 && AllDigits(d) && (rest == [] || !IsDigit(rest[0]))
    ensures m == DigitsValue(d)
  {
    var n := DigitPrefixLength(u);
    d, rest := u[..n], u[n..];
    assert u == d + rest;
    if rest != [] {
      assert rest[0] == u[n];
    }
  }

  /** parseInt's first two steps: white space, then at most one sign, then the
      digits part, whose value is signed. */
  lemma ParseIntSignParts(s: string, v: int) returns (w: string, sign: string, u: string, m: nat)
    requires ParseInt(s) == Some(v)
    ensures s == w + (sign + u)
    ensures AllWhiteSpace(w) && IsSign(sign)
    ensures ParseDigits(u) == Some(m) && v == Signed(sign, m)
  {
    var t := TrimStart(s);
    TrimStartIsSuffix(s);
    w := s[..|s| - |t|];
    assert s == w + t;
    forall i | 0 <= i < |w|
      ensures IsJsWhiteSpace(w[i])
    {
      assert w[i] == s[i];
    }
    if |t| > 0 && (t[0] == '-' || t[0] == '+') {
      sign, u := [t[0]], t[1..];
    } else {
      sign, u := [], t;
    }
    assert t == sign + u;
    m := ParseDigits(u).value;
  }

  /** Only if: parseInt gives a number only for white space, at most one sign,
      a non-empty run of digits and a rest that does not continue the run; the
      number is the signed value of that run. */
  lemma ParseIntParts(s: string, v: int) returns (w: string, sign: string, d: string, rest: string)
    requires ParseInt(s) == Some(v)
    ensures s == w + sign + d + rest
    ensures AllWhiteSpace(w) && IsSign(sign)
    ensures |d| > 0 && AllDigits(d) && (rest == [] || !IsDigit(rest[0]))
    ensures v == Signed(sign, DigitsValue(d))
  {
    var u, m;
    w, sign, u, m := ParseIntSignParts(s, v);
    d, rest := ParseDigitsParts(u, m);
    assert w + (sign + u) == w + sign + d + rest;
  }

  /** Leading white space of any length never changes the result. */
  lemma {:induction false} ParseIntAfterWhiteSpace(w: string, x: string)
    requires AllWhiteSpace(w)
    ensures ParseInt(w + x) == ParseInt(x)
  {
    if w != [] {
      var tail := w[1..];
      assert AllWhiteSpace(tail) by {
        forall i | 0 <= i < |tail|
          ensures IsJsWhiteSpace(tail[i])
        {
          assert tail[i] == w[i + 1];
        }
      }
      ParseIntAfterWhiteSpace(tail, x);
      ParseIntSkipsWhiteSpace(w[0], tail + x);
      assert w + x == [w[0]] + (tail + x);
    } else {
      assert w + x == x;
    }
  }

  /** At most one sign before a string that starts with a digit. */
  lemma ParseIntSigned(sign: string, u: string)
    requires IsSign(sign)
    requires u != [] && IsDigit(u[0])
    ensures ParseDigits(u).Some?
    ensures ParseInt(sign + u) == Some(Signed(sign, ParseDigits(u).value))
  {
    if sign == ['-'] {
      ParseIntNegative(u);
    } else if sign == ['+'] {
      ParseIntPlus(u);
    } else {
      ParseIntUnsigned(u);
      assert sign + u == u;
    }
  }

  /** If: white space, at most one sign and a string that starts with a digit
      parse to the signed value of its digits part (which ParseDigitsNumeral
      gives as the value of the leading digit run). */
  lemma ParseIntOfParts(w: string, sign: string, u: string)
    requires AllWhiteSpace(w) && IsSign(sign)
    requires u != [] && IsDigit(u[0])
    ensures ParseDigits(u).Some?
    ensures ParseInt(w + (sign + u)) == Some(Signed(sign, ParseDigits(u).value))
  {
    ParseIntSigned(sign, u);
    ParseIntAfterWhiteSpace(w, sign + u);
  }

  /** A string whose first character is neither white space, a sign nor a
      digit parses to NaN ("abc1"). */
  lemma ParseIntBadStart(c: char, s: string)
    requires !IsJsWhiteSpace(c) && !IsDigit(c) && c != '-' && c != '+'
    ensures ParseInt([c] + s) == None
  {
  }

  /** A sign not followed by a digit parses to NaN ("+-1", "- 1"). */
  lemma ParseIntSignWithoutDigit(sign: string, s: string)
    requires sign == ['-'] || sign == ['+']
    requires s == [] || !IsDigit(s[0])
    ensures ParseInt(sign + s) == None
  {
    var x := sign + s;
    if ParseInt(x).Some? {
      var w, sign', d, rest := ParseIntParts(x, ParseInt(x).value);
      assert false;
    }
  }

  /** "abc1", "+-1" and "- 1" are NaN: parseInt looks for digits only
      right after the white space and the one sign. */
  lemma ParseIntRejectsScenario()
    ensures ParseInt("abc1") == None
    ensures ParseInt("+-1") == None
    ensures ParseInt("- 1") == None
  {
    assert "abc1" == ['a'] + "bc1";
    ParseIntBadStart('a', "bc1");
    assert "+-1" == ['+'] + "-1";
    ParseIntSignWithoutDigit(['+'], "-1");
    assert "- 1" == ['-'] + " 1";
    ParseIntSignWithoutDigit(['-'], " 1");
  }

  // ---------------------------------------------------------------------------
  // toLowerCase, over ASCII letters
  // ---------------------------------------------------------------------------

  predicate IsUpper(c: char) {
    'A' <= c <= 'Z'
  }

  predicate IsLower(c: char) {
    'a' <= c <= 'z'
  }

  function LowerChar(c: char): (l: char)
    ensures !IsUpper(l)
    ensures IsUpper(c) ==> IsLower(l) && l as int == c as int + 32
    ensures !IsUpper(c) ==> l == c
  {
    if IsUpper(c) then (c as int + 32) as char else c
  }

  function UpperChar(c: char): (u: char)
    ensures !IsLower(u)
    ensures IsLower(c) ==> IsUpper(u) && u as int == c as int - 32
    ensures !IsLower(c) ==> u == c
  {
    if IsLower(c) then (c as int - 32) as char else c
  }

  /** `s.toLowerCase()`, folding the ASCII letters only. */
  function Lower(s: string): string {
    seq(|s|, i requires 0 <= i < |s| => LowerChar(s[i]))
  }

  /** `s.toUpperCase()`, folding the ASCII letters only; used to state that a
      query's case does not matter. */
  function Upper(s: string): string {
    seq(|s|, i requires 0 <= i < |s| => UpperChar(s[i]))
  }

  lemma LowerIdempotent(s: string)
    ensures Lower(Lower(s)) == Lower(s)
  {
    assert forall i :: 0 <= i < |s| ==> Lower(Lower(s))[i] == Lower(s)[i];
  }

  /** Upper-casing a string first does not change its lower-cased form. */
  lemma LowerOfUpper(s: string)
    ensures Lower(Upper(s)) == Lower(s)
  {
    assert forall i :: 0 <= i < |s| ==> Lower(Upper(s))[i] == Lower(s)[i];
  }

  // ---------------------------------------------------------------------------
  // includes
  // ---------------------------------------------------------------------------

  /** `needle` is a prefix of `hay[i..]`. */
  predicate OccursAt(needle: string, hay: string, i: nat) {
    i + |needle| <= |hay| && hay[i..i + |needle|] == needle
  }

  /** `hay.includes(needle)`. */
  predicate Contains(hay: string, needle: string) {
    exists i: nat :: i <= |hay| && OccursAt(needle, hay, i)
  }

  lemma ContainsEmpty(hay: string)
    ensures Contains(hay, "")
  {
    assert OccursAt("", hay, 0);
  }

  lemma ContainsSelf(s: string)
    ensures Contains(s, s)
  {
    assert OccursAt(s, s, 0);
  }

  /** `hay.indexOf(needle)` by a left-to-right naive search; `includes` holds
      exactly when the result is not -1. */
  method IndexOf(hay: string, needle: string) returns (k: int)
    ensures -1 <= k <= |hay|
    ensures k >= 0 ==> OccursAt(needle, hay, k)
    ensures k >= 0 ==> forall j: nat :: j < k ==> !OccursAt(needle, hay, j)
    ensures k == -1 <==> !Contains(hay, needle)
  {
    if |needle| > |hay| {
      return -1;
    }
    var i := 0;
    while i <= |hay| - |needle|
      invariant 0 <= i <= |hay| - |needle| + 1
      invariant forall j: nat :: j < i ==> !OccursAt(needle, hay, j)
    {
      var m := 0;
      while m < |needle| && hay[i + m] == needle[m]
        invariant 0 <= m <= |needle|
        invariant hay[i..i + m] == needle[..m]
      {
        assert hay[i..i + m + 1] == hay[i..i + m] + [hay[i + m]];
        assert needle[..m + 1] == needle[..m] + [needle[m]];
        m := m + 1;
      }
      if m == |needle| {
        assert OccursAt(needle, hay, i);
        return i;
      }
      assert hay[i..i + |needle|][m] != needle[m];
      i := i + 1;
    }
    return -1;
  }
}
