/**
 * JavaScript values as they reach the URL segment map, and the built-ins
 * applied to them: ToBoolean (`if (v)`), ToString (`'' + v`), `parseInt`
 * and `encodeURIComponent` (sections 7.1.2, 7.1.17, 19.2.5 and 19.2.6.5 of
 * ECMA-262). Numbers are modelled as unbounded integers.
 */
module JsValues {
  import opened JsStrings

  /** A primitive JavaScript value. `Num` holds an integral Number; `NaN` is the
      result of a failed `parseInt`. */
  datatype JsValue = Undefined | Null | Bool(b: bool) | Num(n: int) | NaN | Str(s: string)

  /** ToBoolean: the test applied by `if (v)`. */
  predicate Truthy(v: JsValue) {
    match v
    case Undefined => false
    case Null => false
    case Bool(b) => b
    case Num(n) => n != 0
    case NaN => false
    case Str(s) => s != ""
  }

  predicate IsDecimalDigit(c: char) {
    '0' <= c <= '9'
  }

  predicate AllDecimalDigits(s: string) {
    forall i :: 0 <= i < |s| ==> IsDecimalDigit(s[i])
  }

  function DigitChar(d: nat): char
    requires d < 10
  {
    (48 + d) as char
  }

  /** The decimal numeral of `n`, without leading zeros. */
  function NatToString(n: nat): (r: string)
    ensures |r| >= 1 && AllDecimalDigits(r)
    ensures r[0] == '0' ==> n == 0 && r == "0"
  {
    if n < 10 then [DigitChar(n)] else NatToString(n / 10) + [DigitChar(n % 10)]
  }

  /** Number::toString for an integral Number. */
  function NumberToString(n: int): string {
    if n < 0 then "-" + NatToString(-n) else NatToString(n)
  }

  /** ToString applied to a primitive value, as in `key + '=' + val`. */
  function ToString(v: JsValue): string {
    match v
    case Undefined => "undefined"
    case Null => "null"
    case Bool(b) => if b then "true" else "false"
    case Num(n) => NumberToString(n)
    case NaN => "NaN"
    case Str(s) => s
  }

  /** The value of `c` as a digit of radix up to 36, or -1 when it is not a digit. */
  function DigitValue(c: char): int {
    if '0' <= c <= '9' then c as int - 48
    else if 'a' <= c <= 'z' then c as int - 97 + 10
    else if 'A' <= c <= 'Z' then c as int - 65 + 10
    else -1
  }

  predicate IsRadixDigit(c: char, radix: nat) {
    0 <= DigitValue(c) < radix
  }

  predicate AllRadixDigits(s: string, radix: nat) {
    forall i :: 0 <= i < |s| ==> IsRadixDigit(s[i], radix)
  }

  /** The longest prefix of `s` made of radix-`radix` digits. */
  function DigitPrefix(s: string, radix: nat): (r: string)
    ensures r <= s && AllRadixDigits(r, radix)
    ensures |r| < |s| ==> !IsRadixDigit(s[|r|], radix)
  {
    if s == [] || !IsRadixDigit(s[0], radix) then [] else [s[0]] + DigitPrefix(s[1..], radix)
  }

  /** The mathematical value of a digit string, most significant digit first. */
  function DigitsValue(ds: string, radix: nat): nat
    requires AllRadixDigits(ds, radix)
  {
    if ds == [] then 0 else DigitsValue(ds[..|ds| - 1], radix) * radix + DigitValue(ds[|ds| - 1])
  }

  /** `parseInt(s)` with no radix: skip leading white space, read an optional sign,
      take radix 16 after a `0x`/`0X` prefix and 10 otherwise, and read the longest
      run of digits; no digit at all gives NaN. */
  function ParseInt(input: string): (r: JsValue)
    ensures r.Num? || r.NaN?
  {
    var t := TrimStart(input);
    var negative := t != [] && t[0] == '-';
    var u := if t != [] && (t[0] == '-' || t[0] == '+') then t[1..] else t;
    var hex := |u| >= 2 && u[0] == '0' && (u[1] == 'x' || u[1] == 'X');
    var radix := if hex then 16 else 10;
    var digits := DigitPrefix(if hex then u[2..] else u, radix);
    if digits == [] then NaN
    else
      var magnitude: int := DigitsValue(digits, radix);
      Num(if negative then -magnitude else magnitude)
  }

  /** Reading back a numeral gives the number it was written from. */
  lemma {:induction false} NatToStringValue(n: nat)
    ensures AllRadixDigits(NatToString(n), 10)
    ensures DigitsValue(NatToString(n), 10) == n
  {
    var r := NatToString(n);
    if n >= 10 {
      NatToStringValue(n / 10);
      assert r[..|r| - 1] == NatToString(n / 10);
    }
  }

  /** A run of digits is its own longest digit prefix. */
  lemma {:induction false} DigitPrefixOfDigits(s: string, radix: nat)
    requires AllRadixDigits(s, radix)
    ensures DigitPrefix(s, radix) == s
  {
    if s != [] {
      DigitPrefixOfDigits(s[1..], radix);
    }
  }

  /** `parseInt(String(n)) === n` for every integral Number: the from/to coercion
      undoes serialisation. */
  lemma ParseIntOfNumberToString(n: int)
    ensures ParseInt(NumberToString(n)) == Num(n)
  {
    var m := if n < 0 then -n else n;
    var digits := NatToString(m);
    var s := NumberToString(n);
    NatToStringValue(m);
    DigitPrefixOfDigits(digits, 10);
    assert !IsWhiteSpace(s[0]);
    assert TrimStart(s) == s;
    if n < 0 {
      assert s == "-" + digits && s[1..] == digits;
    } else {
      assert s == digits && s[0] != '-' && s[0] != '+';
    }
    assert !(|digits| >= 2 && digits[0] == '0');
  }

  /** A numeral is never empty, so the value read back is truthy unless it is zero. */
  lemma NumberToStringNonEmpty(n: int)
    ensures NumberToString(n) != "" && Truthy(Str(NumberToString(n)))
  {
  }

  /** The characters `encodeURIComponent` leaves as they are: letters, decimal digits
      and `- _ . ! ~ * ' ( )`. */
  predicate IsUriUnreserved(c: char) {
    ('a' <= c <= 'z') || ('A' <= c <= 'Z') || ('0' <= c <= '9')
    || c == '-' || c == '_' || c == '.' || c == '!' || c == '~' || c == '*' || c == '\'' || c == '(' || c == ')'
  }

  /** The UTF-8 encoding of a Unicode scalar value (section 3 of RFC 3629). */
  function Utf8Bytes(cp: int): (r: seq<int>)
    requires 0 <= cp < 0x11_0000
    ensures 1 <= |r| <= 4
    ensures forall i :: 0 <= i < |r| ==> 0 <= r[i] < 256
  {
    if cp < 0x80 then [cp]
    else if cp < 0x800 then [0xC0 + cp / 64, 0x80 + cp % 64]
    else if cp < 0x1_0000 then [0xE0 + cp / 4096, 0x80 + (cp / 64) % 64, 0x80 + cp % 64]
    else [0xF0 + cp / 262144, 0x80 + (cp / 4096) % 64, 0x80 + (cp / 64) % 64, 0x80 + cp % 64]
  }

  function HexDigitUpper(d: int): (c: char)
    requires 0 <= d < 16
    ensures IsUriUnreserved(c)
  {
    if d < 10 then (48 + d) as char else (55 + d) as char
  }

  /** Each byte as `%XY` with upper-case hexadecimal digits. */
  function PercentEncode(bytes: seq<int>): (r: string)
    requires forall i :: 0 <= i < |bytes| ==> 0 <= bytes[i] < 256
    ensures |r| == 3 * |bytes|
    ensures forall i :: 0 <= i < |r| ==> IsUriUnreserved(r[i]) || r[i] == '%'
  {
    if bytes == [] then ""
    else ['%', HexDigitUpper(bytes[0] / 16), HexDigitUpper(bytes[0] % 16)] + PercentEncode(bytes[1..])
  }

  /** `encodeURIComponent(s)`: unreserved characters are kept, every other character
      becomes the percent-escapes of its UTF-8 bytes. The result holds only
      unreserved characters and `%`. */
  function EncodeURIComponent(s: string): (r: string)
    ensures |r| >= |s|
    ensures forall i :: 0 <= i < |r| ==> IsUriUnreserved(r[i]) || r[i] == '%'
  {
    if s == [] then ""
    else
      var head := if IsUriUnreserved(s[0]) then [s[0]] else PercentEncode(Utf8Bytes(s[0] as int));
      head + EncodeURIComponent(s[1..])
  }

  /** Encoding changes the text exactly when it holds a character that is not unreserved. */
  lemma {:induction false} EncodeIdentityIff(s: string)
    ensures EncodeURIComponent(s) == s <==> forall i :: 0 <= i < |s| ==> IsUriUnreserved(s[i])
  {
    if s != [] {
      EncodeIdentityIff(s[1..]);
      if !IsUriUnreserved(s[0]) {
        assert |EncodeURIComponent(s)| >= 3 + |s[1..]| > |s|;
      } else if EncodeURIComponent(s) == s {
        assert EncodeURIComponent(s[1..]) == s[1..];
      }
    }
  }

  /** An encoded identifier can stand as a fragment value: it holds no `&`, `=` or `#`. */
  lemma EncodedIsFragmentSafe(s: string)
    ensures var r := EncodeURIComponent(s); '&' !in r && '=' !in r && '#' !in r
  {
  }

  /** An identifier `a/b` made of unreserved characters around one slash, such as
      `place/42`, is written `a%2Fb`. */
  lemma EncodeSlashSeparated(a: string, b: string)
    requires forall i :: 0 <= i < |a| ==> IsUriUnreserved(a[i])
    requires forall i :: 0 <= i < |b| ==> IsUriUnreserved(b[i])
    ensures EncodeURIComponent(a + "/" + b) == a + "%2F" + b
  {
    EncodeAroundSlash(a, b);
    EncodeIdentityIff(a);
    EncodeIdentityIff(b);
    EncodeSlash();
  }

  lemma EncodeAroundSlash(a: string, b: string)
    ensures EncodeURIComponent(a + "/" + b)
         == EncodeURIComponent(a) + EncodeURIComponent("/") + EncodeURIComponent(b)
  {
    EncodeAppend(a, "/" + b);
    EncodeAppend("/", b);
    assert a + "/" + b == a + ("/" + b);
  }

  /** `/` is escaped as `%2F`. */
  lemma EncodeSlash()
    ensures EncodeURIComponent("/") == "%2F"
  {
    assert Utf8Bytes('/' as int) == [47];
    assert PercentEncode([47]) == ['%', '2', 'F'];
  }

  /** Encoding works character by character. */
  lemma {:induction false} EncodeAppend(a: string, b: string)
    ensures EncodeURIComponent(a + b) == EncodeURIComponent(a) + EncodeURIComponent(b)
  {
    if a == [] {
      assert a + b == b;
    } else {
      var ab := a + b;
      assert ab[0] == a[0] && ab[1..] == a[1..] + b;
      EncodeAppend(a[1..], b);
    }
  }
}
