/** The parts of JavaScript number handling the visualizer's handlers rely on:
    `parseInt` with no radix argument (every text field is read through it),
    `String.prototype.trim`, and the decimal text of an integer that the
    array display shows. */
module JsNumbers {

  /** What `parseInt` returns: NaN, or an integer. */
  datatype Num = NaN | Int(value: int)

  /** The code points ECMAScript counts as white space or line terminators
      (WhiteSpace, which includes every space separator, and LineTerminator). */
  predicate IsWhiteSpace(c: char) {
    c == '\t' || c == '\n' || c == '\U{B}' || c == '\U{C}' || c == '\r' || c == ' '
    || c == '\U{A0}' || c == '\U{1680}' || ('\U{2000}' <= c <= '\U{200A}')
    || c == '\U{2028}' || c == '\U{2029}' || c == '\U{202F}' || c == '\U{205F}'
    || c == '\U{3000}' || c == '\U{FEFF}'
  }

  /** `s` without its leading white space. */
  function TrimStart(s: string): string {
    if s != [] && IsWhiteSpace(s[0]) then TrimStart(s[1..]) else s
  }

  /** `s` without its trailing white space. */
  function TrimEnd(s: string): string {
    if s != [] && IsWhiteSpace(s[|s| - 1]) then TrimEnd(s[..|s| - 1]) else s
  }

  /** `TrimStart` removes a run of white space from the front and stops at the first other character. */
  lemma {:induction false} TrimStartShape(s: string)
    ensures var r := TrimStart(s);
      && |r| <= |s| && r == s[|s| - |r|..]
      && (forall k :: 0 <= k < |s| - |r| ==> IsWhiteSpace(s[k]))
      && (r != [] ==> !IsWhiteSpace(r[0]))
  {
    if s != [] && IsWhiteSpace(s[0]) {
      var r := TrimStart(s[1..]);
      TrimStartShape(s[1..]);
      assert TrimStart(s) == r;
      assert s[1..][|s| - 1 - |r|..] == s[|s| - |r|..];
      forall k | 1 <= k < |s| - |r| ensures IsWhiteSpace(s[k]) {
        assert s[k] == s[1..][k - 1];
      }
    }
  }

  /** `TrimEnd` removes a run of white space from the back and stops at the last other character. */
  lemma {:induction false} TrimEndShape(s: string)
    ensures var r := TrimEnd(s);
      && |r| <= |s| && r == s[..|r|]
      && (forall k :: |r| <= k < |s| ==> IsWhiteSpace(s[k]))
      && (r != [] ==> !IsWhiteSpace(r[|r| - 1]))
  {
    if s != [] && IsWhiteSpace(s[|s| - 1]) {
      var r := TrimEnd(s[..|s| - 1]);
      TrimEndShape(s[..|s| - 1]);
      assert TrimEnd(s) == r;
      assert s[..|s| - 1][..|r|] == s[..|r|];
      forall k | |r| <= k < |s| - 1 ensures IsWhiteSpace(s[k]) {
        assert s[k] == s[..|s| - 1][k];
      }
    }
  }

  /** `s.trim()`. */
  function Trim(s: string): string {
    TrimEnd(TrimStart(s))
  }

  /** The value of `c` as a digit of radix 36 (`0`-`9`, then `a`-`z` or `A`-`Z`), or 36 if it is none. */
  function DigitValue(c: char): nat {
    if '0' <= c <= '9' then c as int - '0' as int
    else if 'a' <= c <= 'z' then c as int - 'a' as int + 10
    else if 'A' <= c <= 'Z' then c as int - 'A' as int + 10
    else 36
  }

  predicate IsDigit(c: char, radix: nat) {
    DigitValue(c) < radix
  }

  /** The longest prefix of `s` made of digits of `radix`. */
  function DigitPrefix(s: string, radix: nat): string {
    if s != [] && IsDigit(s[0], radix) then [s[0]] + DigitPrefix(s[1..], radix) else []
  }

  /** `DigitPrefix` is a prefix made of digits, followed by a non-digit or by nothing. */
  lemma {:induction false} DigitPrefixShape(s: string, radix: nat)
    ensures var ds := DigitPrefix(s, radix);
      && |ds| <= |s| && ds == s[..|ds|]
      && (forall k :: 0 <= k < |ds| ==> IsDigit(ds[k], radix))
      && (|ds| < |s| ==> !IsDigit(s[|ds|], radix))
  {
    if s != [] && IsDigit(s[0], radix) {
      var ds := DigitPrefix(s[1..], radix);
      DigitPrefixShape(s[1..], radix);
      assert DigitPrefix(s, radix) == [s[0]] + ds;
      assert s[..|ds| + 1] == [s[0]] + s[1..][..|ds|];
      assert |ds| < |s| - 1 ==> s[|ds| + 1] == s[1..][|ds|];
    }
  }

  /** The value of a digit string, most significant digit first. */
  function DigitsValue(ds: string, radix: nat): nat {
    if ds == [] then 0 else DigitsValue(ds[..|ds| - 1], radix) * radix + DigitValue(ds[|ds| - 1])
  }

  /** Whether `u` (what follows the sign) starts with the prefix `0x` or `0X` of a hexadecimal numeral. */
  predicate HasHexPrefix(u: string) {
    |u| >= 2 && u[0] == '0' && (u[1] == 'x' || u[1] == 'X')
  }

  /** `parseInt(s)`: skip leading white space, then read a signed numeral. */
  function ParseInt(s: string): Num {
    ParseSigned(TrimStart(s))
  }

  /** An optional `-` or `+`, then a numeral; the minus sign negates it. */
  function ParseSigned(t: string): Num {
    var u := if t != [] && (t[0] == '-' || t[0] == '+') then t[1..] else t;
    match ParseMagnitude(u)
    case NaN => NaN
    case Int(m) => Int(if t != [] && t[0] == '-' then -m else m)
  }

  /** Radix 16 after a `0x`/`0X` prefix, else radix 10; the value of the longest run of
      digits that follows, or NaN if that run is empty. */
  function ParseMagnitude(u: string): Num {
    var radix := if HasHexPrefix(u) then 16 else 10;
    var ds := DigitPrefix(if HasHexPrefix(u) then u[2..] else u, radix);
    if ds == [] then NaN else Int(DigitsValue(ds, radix))
  }

  function DecimalDigit(d: nat): char
    requires d < 10
  {
    ('0' as int + d) as char
  }

  /** The decimal numeral of `n`, with no leading zero. */
  function ShowNat(n: nat): (s: string)
    ensures s != []
    ensures forall k :: 0 <= k < |s| ==> '0' <= s[k] <= '9'
    ensures s[0] == '0' ==> n == 0
  {
    if n < 10 then [DecimalDigit(n)] else ShowNat(n / 10) + [DecimalDigit(n % 10)]
  }

  /** `String(x)` for an integer `x`: an optional minus sign and the decimal numeral. */
  function ShowInt(x: int): (s: string)
    ensures s != [] && !IsWhiteSpace(s[0]) && !IsWhiteSpace(s[|s| - 1])
    ensures forall k :: 0 <= k < |s| ==> s[k] != ','
  {
    if x < 0 then "-" + ShowNat(-x) else ShowNat(x)
  }

  /** Reading back a decimal numeral gives the number it shows. */
  lemma {:induction false} ShowNatValue(n: nat)
    ensures DigitsValue(ShowNat(n), 10) == n
  {
    if n >= 10 {
      var s := ShowNat(n);
      assert s[..|s| - 1] == ShowNat(n / 10);
      ShowNatValue(n / 10);
    }
  }

  /** `parseInt` reads back every integer as the app shows it. */
  lemma ParseIntShowInt(x: int)
    ensures ParseInt(ShowInt(x)) == Int(x)
  {
    var n: nat := if x < 0 then -x else x;
    var s := ShowNat(n);
    assert DigitPrefix(s, 10) == s by {
      DigitPrefixAllDigits(s, 10);
    }
    ShowNatValue(n);
    assert !HasHexPrefix(s);
    var shown := ShowInt(x);
    assert TrimStart(shown) == shown;
    if x < 0 {
      assert shown[1..] == s;
    }
  }

  /** A string made only of digits is its own digit prefix. */
  lemma {:induction false} DigitPrefixAllDigits(s: string, radix: nat)
    requires forall k :: 0 <= k < |s| ==> IsDigit(s[k], radix)
    ensures DigitPrefix(s, radix) == s
  {
    if s != [] {
      DigitPrefixAllDigits(s[1..], radix);
    }
  }

  /** Appending characters that are not digits leaves the digit prefix alone. */
  lemma {:induction false} DigitPrefixStopsAtNonDigit(v: string, w: string, radix: nat)
    requires w == [] || !IsDigit(w[0], radix)
    ensures DigitPrefix(v + w, radix) == DigitPrefix(v, radix)
  {
    if v != [] {
      assert (v + w)[1..] == v[1..] + w;
      DigitPrefixStopsAtNonDigit(v[1..], w, radix);
    } else {
      assert v + w == w;
    }
  }

  /** Trimming leading white space twice is trimming it once. */
  lemma TrimStartIdempotent(s: string)
    ensures TrimStart(TrimStart(s)) == TrimStart(s)
  {
    TrimStartShape(s);
  }

  predicate AllWhiteSpace(w: string) {
    forall k :: 0 <= k < |w| ==> IsWhiteSpace(w[k])
  }

  /** Trailing white space after a numeral's text does not change its value. */
  lemma MagnitudeIgnoresTrailing(u: string, w: string)
    requires AllWhiteSpace(w)
    ensures ParseMagnitude(u + w) == ParseMagnitude(u)
  {
    var hex := HasHexPrefix(u + w);
    assert HasHexPrefix(u) == hex;
    var radix := if hex then 16 else 10;
    var v := if hex then u[2..] else u;
    assert (if hex then (u + w)[2..] else u + w) == v + w;
    assert w == [] || !IsDigit(w[0], radix) by {
      if w != [] {
        assert IsWhiteSpace(w[0]);
      }
    }
    DigitPrefixStopsAtNonDigit(v, w, radix);
  }

  /** Trailing white space after a signed numeral does not change its value. */
  lemma SignedIgnoresTrailing(t: string, w: string)
    requires AllWhiteSpace(w)
    ensures ParseSigned(t + w) == ParseSigned(t)
  {
    if t != [] {
      assert (t + w)[0] == t[0];
      if t[0] == '-' || t[0] == '+' {
        assert (t + w)[1..] == t[1..] + w;
      }
      MagnitudeIgnoresTrailing(if t[0] == '-' || t[0] == '+' then t[1..] else t, w);
    } else {
      assert t + w == w;
      if w != [] {
        assert IsWhiteSpace(w[0]);
      }
      MagnitudeIgnoresTrailing(t, w);
    }
  }

  /** A string that starts with no white space is its trailing-trimmed form followed by
      white space only, and that form also starts with no white space. */
  lemma TrimEndSplits(t: string)
    requires t == [] || !IsWhiteSpace(t[0])
    ensures TrimStart(TrimEnd(t)) == TrimEnd(t)
    ensures |TrimEnd(t)| <= |t|
    ensures t == TrimEnd(t) + t[|TrimEnd(t)|..]
    ensures AllWhiteSpace(t[|TrimEnd(t)|..])
  {
    var t' := TrimEnd(t);
    TrimEndShape(t);
    if t' != [] {
      assert t'[0] == t[0];
    }
  }

  /** The `.trim()` that the comma-list parser applies before `parseInt` never changes the result. */
  lemma ParseIntIgnoresTrim(s: string)
    ensures ParseInt(Trim(s)) == ParseInt(s)
  {
    var t := TrimStart(s);
    TrimStartShape(s);
    TrimEndSplits(t);
    SignedIgnoresTrailing(TrimEnd(t), t[|TrimEnd(t)|..]);
  }
}
