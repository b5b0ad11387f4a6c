/**
 * The slice of JavaScript value semantics the server and the clients rely on:
 * truthiness, `String(v)`, `parseInt`, `String.prototype.trim`, `includes`,
 * `startsWith` and ASCII `toLowerCase`.
 */
module Js {
  import opened Wrappers

  /**
   * A JavaScript value as it arrives in a request body, a query string or a
   * socket payload. Numbers are the integral ones; an object carries an
   * identity, so that `===` on two objects compares references.
   */
  datatype JsValue = Undefined | Null | Bool(b: bool) | Num(n: int) | Str(s: string) | Obj(ref: nat)

  /** The values `if (!v)` treats as false. */
  predicate Falsy(v: JsValue) {
    v == Undefined || v == Null || v == Bool(false) || v == Num(0) || v == Str("")
  }

  predicate Truthy(v: JsValue) {
    !Falsy(v)
  }

  predicate IsDigit(c: char) {
    '0' <= c <= '9'
  }

  predicate AllDigits(s: string) {
    forall i :: 0 <= i < |s| ==> IsDigit(s[i])
  }

  function DigitChar(d: nat): (c: char)
    requires d < 10
    ensures IsDigit(c)
  {
    "0123456789"[d]
  }

  /** Decimal rendering of a natural number, as `String(n)` produces it. */
  function NatToString(n: nat): (s: string)
    ensures |s| > 0 && AllDigits(s)
  {
    if n < 10 then [DigitChar(n)] else NatToString(n / 10) + [DigitChar(n % 10)]
  }

  function IntToString(n: int): (s: string)
    ensures |s| > 0
    ensures n >= 0 ==> AllDigits(s)
    ensures n < 0 ==> s[0] == '-' && AllDigits(s[1..])
  {
    if n < 0 then "-" + NatToString(-n) else NatToString(n)
  }

  /** `String(v)` */
  function ToStr(v: JsValue): string {
    match v
    case Undefined => "undefined"
    case Null => "null"
    case Bool(b) => if b then "true" else "false"
    case Num(n) => IntToString(n)
    case Str(s) => s
    case Obj(_) => "[object Object]"
  }

  /** The characters `trim` and `parseInt` skip: WhiteSpace and LineTerminator of ECMA-262. */
  predicate IsSpace(c: char) {
    || c == '\t' || c == '\n' || c == '\U{B}' || c == '\U{C}' || c == '\r' || c == ' '
    || c == '\U{A0}' || c == '\U{1680}' || ('\U{2000}' <= c <= '\U{200A}')
    || c == '\U{2028}' || c == '\U{2029}' || c == '\U{202F}' || c == '\U{205F}'
    || c == '\U{3000}' || c == '\U{FEFF}'
  }

  function TrimStart(s: string): (r: string)
    ensures |r| <= |s| && r == s[|s| - |r|..]
    ensures r == [] || !IsSpace(r[0])
    ensures forall i :: 0 <= i < |s| - |r| ==> IsSpace(s[i])
  {
    if s != [] && IsSpace(s[0]) then TrimStart(s[1..]) else s
  }

  lemma TrimStartKeeps(s: string)
    requires s != [] && !IsSpace(s[0])
    ensures TrimStart(s) == s
  {
  }

  function TrimEnd(s: string): (r: string)
    ensures |r| <= |s| && r == s[..|r|]
    ensures r == [] || !IsSpace(r[|r| - 1])
    ensures forall i :: |r| <= i < |s| ==> IsSpace(s[i])
  {
    if s != [] && IsSpace(s[|s| - 1]) then TrimEnd(s[..|s| - 1]) else s
  }

  /** `s.trim()` */
  function Trim(s: string): (r: string)
    ensures |r| <= |s|
  {
    TrimEnd(TrimStart(s))
  }

  lemma {:induction false} TrimNoSpace(s: string)
    requires forall i :: 0 <= i < |s| ==> !IsSpace(s[i])
    ensures Trim(s) == s
  {
    if s != [] {
      assert !IsSpace(s[0]) && !IsSpace(s[|s| - 1]);
    }
  }

  /** `s.includes(sub)` */
  predicate Contains(s: string, sub: string)
    decreases |s|
  {
    StartsWith(s, sub) || (s != [] && Contains(s[1..], sub))
  }

  /** `s.startsWith(prefix)` */
  predicate StartsWith(s: string, prefix: string) {
    |prefix| <= |s| && s[..|prefix|] == prefix
  }

  function LowerChar(c: char): char {
    if 'A' <= c <= 'Z' then (c as int + 32) as char else c
  }

  /** `s.toLowerCase()` on the ASCII letters. */
  function LowerAscii(s: string): (r: string)
    ensures |r| == |s| && forall i :: 0 <= i < |s| ==> r[i] == LowerChar(s[i])
  {
    seq(|s|, i requires 0 <= i < |s| => LowerChar(s[i]))
  }

  /** A character beyond U+FFFF, which UTF-16 stores as a surrogate pair. */
  predicate Astral(c: char) {
    c as int > 0xFFFF
  }

  /** `s.length`: UTF-16 code units, two for each character beyond U+FFFF. */
  function Utf16Length(s: string): (n: nat)
    ensures |s| <= n <= 2 * |s|
  {
    if s == [] then 0 else Utf16Length(s[..|s| - 1]) + if Astral(s[|s| - 1]) then 2 else 1
  }

  /** Appending a character adds its one or two code units. */
  lemma Utf16LengthAppend(s: string, c: char)
    ensures Utf16Length(s + [c]) == Utf16Length(s) + if Astral(c) then 2 else 1
  {
    assert (s + [c])[..|s|] == s;
  }

  /** The code-unit length is the character count exactly when no character is astral. */
  lemma {:induction false} Utf16LengthIsLength(s: string)
    ensures Utf16Length(s) == |s| <==> forall i :: 0 <= i < |s| ==> !Astral(s[i])
  {
    if s != [] {
      var init := s[..|s| - 1];
      Utf16LengthIsLength(init);
      assert forall i :: 0 <= i < |s| - 1 ==> init[i] == s[i];
    }
  }

  /**
   * `s.substring(0, n)` with `n` counted in UTF-16 code units: the longest
   * prefix that fits in `n` units.
   */
  function Utf16Prefix(s: string, n: nat): (r: string)
    ensures |r| <= |s| && Utf16Length(r) <= n && r == s[..|r|]
    ensures |r| < |s| ==> Utf16Length(s[..|r| + 1]) > n
    ensures Utf16Length(s) <= n ==> r == s
    decreases |s|
  {
    if Utf16Length(s) <= n then s
    else
      var r := Utf16Prefix(s[..|s| - 1], n);
      assert s[..|s| - 1][..|r|] == s[..|r|];
      assert |r| < |s| - 1 ==> s[..|s| - 1][..|r| + 1] == s[..|r| + 1];
      assert |r| == |s| - 1 ==> s[..|r| + 1] == s;
      r
  }

  /** The value of a digit character in base 10 or 16, if it is one. */
  function DigitIn(c: char, radix: nat): Option<nat> {
    if '0' <= c <= '9' then Some(c as nat - '0' as nat)
    else if radix == 16 && 'a' <= c <= 'f' then Some(c as nat - 'a' as nat + 10)
    else if radix == 16 && 'A' <= c <= 'F' then Some(c as nat - 'A' as nat + 10)
    else None
  }

  /** The longest prefix of `s` made of digits of the radix. */
  function LeadingDigits(s: string, radix: nat): (d: string)
    ensures |d| <= |s| && d == s[..|d|]
    ensures forall i :: 0 <= i < |d| ==> DigitIn(d[i], radix).Some?
    ensures |d| < |s| ==> DigitIn(s[|d|], radix).None?
  {
    if s != [] && DigitIn(s[0], radix).Some? then [s[0]] + LeadingDigits(s[1..], radix) else []
  }

  function DigitsValue(d: string, radix: nat): nat
    requires forall i :: 0 <= i < |d| ==> DigitIn(d[i], radix).Some?
  {
    if d == [] then 0 else DigitsValue(d[..|d| - 1], radix) * radix + DigitIn(d[|d| - 1], radix).value
  }

  /** The digits after the sign: a `0x`/`0X` prefix selects base 16 unless the radix is forced to 10. */
  function ParseUnsigned(u: string, decimalOnly: bool): Option<nat> {
    var hex := !decimalOnly && |u| >= 2 && u[0] == '0' && (u[1] == 'x' || u[1] == 'X');
    var radix := if hex then 16 else 10;
    var d := LeadingDigits(if hex then u[2..] else u, radix);
    if d == [] then None else Some(DigitsValue(d, radix))
  }

  /**
   * `parseInt(s)` (when `decimalOnly` is false) and `parseInt(s, 10)` (when
   * it is true): leading white space is skipped, one sign is read, then the
   * longest run of digits. `None` stands for NaN.
   */
  function ParseIntString(s: string, decimalOnly: bool): Option<int> {
    var t := TrimStart(s);
    var neg := t != [] && t[0] == '-';
    var u := if t != [] && (t[0] == '-' || t[0] == '+') then t[1..] else t;
    match ParseUnsigned(u, decimalOnly)
    case None => None
    case Some(v) => Some(if neg then -(v as int) else v as int)
  }

  /** `parseInt(v)` and `parseInt(v, 10)` on any value: the value is first turned into a string. */
  function ParseInt(v: JsValue, decimalOnly: bool): Option<int> {
    ParseIntString(ToStr(v), decimalOnly)
  }

  lemma {:induction false} LeadingDigitsOfDigits(s: string, rest: string)
    requires AllDigits(s)
    requires rest == [] || DigitIn(rest[0], 10).None?
    ensures LeadingDigits(s + rest, 10) == s
  {
    if s != [] {
      assert (s + rest)[1..] == s[1..] + rest;
      LeadingDigitsOfDigits(s[1..], rest);
    }
  }

  lemma {:induction false} NatToStringValue(n: nat)
    ensures forall i :: 0 <= i < |NatToString(n)| ==> DigitIn(NatToString(n)[i], 10).Some?
    ensures DigitsValue(NatToString(n), 10) == n
  {
    var s := NatToString(n);
    if n >= 10 {
      NatToStringValue(n / 10);
      assert s[..|s| - 1] == NatToString(n / 10);
    }
  }

  /** `parseInt(String(n))` gives `n` back, in either radix mode. */
  lemma {:induction false} ParseIntOfDigits(digits: string, neg: bool, decimalOnly: bool)
    requires digits != [] && AllDigits(digits)
    requires forall i :: 0 <= i < |digits| ==> DigitIn(digits[i], 10).Some?
    ensures ParseIntString(if neg then "-" + digits else digits, decimalOnly)
         == Some(if neg then -(DigitsValue(digits, 10) as int) else DigitsValue(digits, 10))
  {
    var s := if neg then "-" + digits else digits;
    assert !IsSpace(s[0]) by {
      assert s[0] == '-' || IsDigit(s[0]);
    }
    TrimStartKeeps(s);
    assert (if neg then s[1..] else s) == digits;
    ParseUnsignedOfDigits(digits, decimalOnly);
  }

  lemma {:induction false} ParseUnsignedOfDigits(digits: string, decimalOnly: bool)
    requires digits != [] && AllDigits(digits)
    requires forall i :: 0 <= i < |digits| ==> DigitIn(digits[i], 10).Some?
    ensures ParseUnsigned(digits, decimalOnly) == Some(DigitsValue(digits, 10))
  {
    assert !(|digits| >= 2 && digits[0] == '0' && (digits[1] == 'x' || digits[1] == 'X')) by {
      assert |digits| >= 2 ==> IsDigit(digits[1]);
    }
    LeadingDigitsOfDigits(digits, []);
    assert digits + [] == digits;
  }

  /** `parseInt(String(n))` gives `n` back, in either radix mode. */
  lemma {:induction false} ParseIntOfIntToString(n: int, decimalOnly: bool)
    ensures ParseIntString(IntToString(n), decimalOnly) == Some(n)
  {
    var m: nat := if n < 0 then -n else n;
    NatToStringValue(m);
    ParseIntOfDigits(NatToString(m), n < 0, decimalOnly);
  }
}
