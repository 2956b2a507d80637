/** The JavaScript string built-ins the server and the map client lean on:
    `trim`, `split` on one or two separator characters, `startsWith` / `endsWith`
    / `includes`, ASCII `toLowerCase`, `String(n)` for integers, `parseInt(s, 10)`
    and `parseFloat`. Strings are sequences of characters. */
module JsText {
  import opened Wrappers

  // ---------------------------------------------------------------------------
  // Whitespace and trim
  // ---------------------------------------------------------------------------

  /** The WhiteSpace and LineTerminator code points that `String.prototype.trim`
      removes (ECMAScript's `WhiteSpace` plus `LineTerminator` productions). */
  predicate IsSpace(c: char) {
    || c == '\t' || c == '\n' || c == '\U{000B}' || c == '\U{000C}' || c == '\r' || c == ' '
    || c == '\U{00A0}' || c == '\U{1680}' || ('\U{2000}' <= c <= '\U{200A}')
    || c == '\U{2028}' || c == '\U{2029}' || c == '\U{202F}' || c == '\U{205F}'
    || c == '\U{3000}' || c == '\U{FEFF}'
  }

  predicate AllSpace(s: string) {
    forall i :: 0 <= i < |s| ==> IsSpace(s[i])
  }

  /** `trimStart`: drops the leading whitespace and nothing else. */
  function TrimStart(s: string): (r: string)
    ensures |r| <= |s| && r == s[|s| - |r|..]
    ensures AllSpace(s[..|s| - |r|])
    ensures r == [] || !IsSpace(r[0])
  {
    if s != [] && IsSpace(s[0]) then
      var r := TrimStart(s[1..]);
      TrimStartStep(s, r);
      r
    else s
  }

  /** Dropping one more leading space keeps `TrimStart`'s contract. */
  lemma TrimStartStep(s: string, r: string)
    requires s != [] && IsSpace(s[0])
    requires |r| <= |s| - 1 && r == s[1..][|s| - 1 - |r|..]
    requires AllSpace(s[1..][..|s| - 1 - |r|])
    ensures r == s[|s| - |r|..]
    ensures AllSpace(s[..|s| - |r|])
  {
    var k := |s| - |r|;
    assert s[1..][k - 1..] == s[k..];
    forall i | 0 <= i < k ensures IsSpace(s[..k][i]) {
      if i > 0 {
        assert s[..k][i] == s[1..][..k - 1][i - 1];
      }
    }
  }

  /** `trimEnd`: drops the trailing whitespace and nothing else. */
  function TrimEnd(s: string): (r: string)
    ensures |r| <= |s| && r == s[..|r|]
    ensures AllSpace(s[|r|..])
    ensures r == [] || !IsSpace(r[|r| - 1])
  {
    if s != [] && IsSpace(s[|s| - 1]) then TrimEnd(s[..|s| - 1]) else s
  }

  /** `trim`: the infix of `s` left after removing whitespace at both ends. */
  function Trim(s: string): (r: string)
    ensures |r| <= |s|
    ensures r == [] || (!IsSpace(r[0]) && !IsSpace(r[|r| - 1]))
  {
    var t := TrimStart(s);
    TrimEnd(t)
  }

  /** What `trim` keeps is an infix of `s`: the whitespace before it and
      after it is all that is removed. */
  lemma TrimInfix(s: string)
    ensures exists i, j :: 0 <= i <= j <= |s| && Trim(s) == s[i..j] && AllSpace(s[..i]) && AllSpace(s[j..])
  {
    var t := TrimStart(s);
    var r := TrimEnd(t);
    var i := |s| - |t|;
    assert r == s[i..i + |r|] && t[|r|..] == s[i + |r|..];
  }

  /** A string with no whitespace at either end is its own trim. */
  lemma TrimOfTrimmed(s: string)
    requires s == [] || (!IsSpace(s[0]) && !IsSpace(s[|s| - 1]))
    ensures Trim(s) == s
  {
  }

  /** Trimming twice is trimming once. */
  lemma TrimIdempotent(s: string)
    ensures Trim(Trim(s)) == Trim(s)
  {
    TrimOfTrimmed(Trim(s));
  }

  /** The trim of `s` is empty exactly when `s` is all whitespace. */
  lemma {:induction false} TrimEmptyIff(s: string)
    ensures Trim(s) == [] <==> AllSpace(s)
  {
    var t := TrimStart(s);
    if Trim(s) == [] {
      assert s[..|s| - |t|] == s;
    }
  }

  /** A string without whitespace is left as it is by trim. */
  lemma TrimNoSpace(s: string)
    requires forall i :: 0 <= i < |s| ==> !IsSpace(s[i])
    ensures Trim(s) == s
  {
    TrimOfTrimmed(s);
  }

  // ---------------------------------------------------------------------------
  // split on a set of separator characters
  // ---------------------------------------------------------------------------

  predicate NoSep(s: string, seps: set<char>) {
    forall i :: 0 <= i < |s| ==> s[i] !in seps
  }

  /** `s.split(c)` for a one-character separator, or `s.split(/[..]/)` for a
      character class: the pieces between separators, in order; the empty
      string gives `[""]` and a trailing separator gives a trailing `""`. */
  function Split(s: string, seps: set<char>): (parts: seq<string>)
    ensures |parts| >= 1
    ensures forall j :: 0 <= j < |parts| ==> NoSep(parts[j], seps)
  {
    if s == [] then [""]
    else
      var rest := Split(s[1..], seps);
      if s[0] in seps then [""] + rest
      else [[s[0]] + rest[0]] + rest[1..]
  }

  /** `parts.join(c)`: the inverse of `Split` for one separator. */
  function Join(parts: seq<string>, c: char): string
    requires |parts| >= 1
  {
    if |parts| == 1 then parts[0] else parts[0] + [c] + Join(parts[1..], c)
  }

  /** Joining the pieces with the separator gives back the string. */
  lemma {:induction false} JoinSplit(s: string, c: char)
    ensures Join(Split(s, {c}), c) == s
  {
    if s != [] {
      JoinSplit(s[1..], c);
      var rest := Split(s[1..], {c});
      if s[0] != c {
        var parts := Split(s, {c});
        assert parts[0] == [s[0]] + rest[0] && parts[1..] == rest[1..];
        if |rest| == 1 {
          assert Join(parts, c) == [s[0]] + rest[0];
        } else {
          assert Join(rest, c) == rest[0] + [c] + Join(rest[1..], c);
          assert Join(parts, c) == [s[0]] + rest[0] + [c] + Join(rest[1..], c);
        }
      }
    }
  }

  /** A string with no separator is one piece. */
  lemma {:induction false} SplitNoSep(s: string, seps: set<char>)
    requires NoSep(s, seps)
    ensures Split(s, seps) == [s]
  {
    if s != [] {
      SplitNoSep(s[1..], seps);
      assert [s[0]] + s[1..] == s;
    }
  }

  /** A separator right after a separator-free head cuts the head off as the
      first piece. */
  lemma {:induction false} SplitAt(a: string, c: char, b: string, seps: set<char>)
    requires NoSep(a, seps) && c in seps
    ensures Split(a + [c] + b, seps) == [a] + Split(b, seps)
  {
    if a != [] {
      SplitAt(a[1..], c, b, seps);
      assert (a + [c] + b)[1..] == a[1..] + [c] + b;
      assert [a[0]] + a[1..] == a;
    } else {
      assert (a + [c] + b)[1..] == b;
    }
  }

  /** A string holding a separator splits into at least two pieces. */
  lemma {:induction false} SplitHasTwo(s: string, seps: set<char>)
    requires !NoSep(s, seps)
    ensures |Split(s, seps)| >= 2
  {
    if s[0] !in seps {
      assert !NoSep(s[1..], seps) by {
        var i :| 0 <= i < |s| && s[i] in seps;
        assert s[1..][i - 1] == s[i];
      }
      SplitHasTwo(s[1..], seps);
    }
  }

  // ---------------------------------------------------------------------------
  // prefix, suffix, infix, lower case
  // ---------------------------------------------------------------------------

  predicate StartsWith(s: string, p: string) {
    |p| <= |s| && s[..|p|] == p
  }

  predicate EndsWith(s: string, p: string) {
    |p| <= |s| && s[|s| - |p|..] == p
  }

  /** A suffix of a suffix is a suffix. */
  lemma EndsWithTrans(s: string, p: string, q: string)
    requires EndsWith(s, p) && EndsWith(p, q)
    ensures EndsWith(s, q)
  {
    assert s[|s| - |q|..] == s[|s| - |p|..][|p| - |q|..];
  }

  /** `s.includes(p)`: `p` occurs somewhere in `s`. */
  predicate Includes(s: string, p: string)
    decreases |s|
  {
    StartsWith(s, p) || (s != [] && Includes(s[1..], p))
  }

  /** `toLowerCase` restricted to ASCII letters. Every pattern the source tests
      a lowered string against is ASCII, and no non-ASCII character lowers to an
      ASCII letter of those patterns, so the tests come out the same. */
  function LowerChar(c: char): (r: char)
    ensures 'A' <= c <= 'Z' ==> 'a' <= r <= 'z' && r as int == c as int + 32
    ensures !('A' <= c <= 'Z') ==> r == c
  {
    if 'A' <= c <= 'Z' then (c as int + 32) as char else c
  }

  function Lower(s: string): (r: string)
    ensures |r| == |s|
    ensures forall i :: 0 <= i < |s| ==> r[i] == LowerChar(s[i])
  {
    if s == [] then [] else [LowerChar(s[0])] + Lower(s[1..])
  }

  // ---------------------------------------------------------------------------
  // integers as decimal text
  // ---------------------------------------------------------------------------

  predicate IsDigit(c: char) {
    '0' <= c <= '9'
  }

  predicate AllDigits(s: string) {
    forall i :: 0 <= i < |s| ==> IsDigit(s[i])
  }

  function DigitChar(d: nat): (c: char)
    requires d < 10
    ensures IsDigit(c)
  {
    ('0' as int + d) as char
  }

  function DigitValue(c: char): (d: nat)
    requires IsDigit(c)
    ensures d < 10 && DigitChar(d) == c
  {
    c as int - '0' as int
  }

  /** The number a run of decimal digits denotes, most significant first. */
  function Decimal(ds: string): nat
    requires AllDigits(ds)
  {
    if ds == [] then 0 else Decimal(ds[..|ds| - 1]) * 10 + DigitValue(ds[|ds| - 1])
  }

  /** `String(n)` for a natural number: its shortest decimal digits. */
  function NatText(n: nat): (s: string)
    ensures |s| >= 1 && AllDigits(s)
    ensures n < 10 <==> |s| == 1
    ensures |s| > 1 ==> s[0] != '0'
  {
    if n < 10 then [DigitChar(n)] else NatText(n / 10) + [DigitChar(n % 10)]
  }

  /** `String(n)` for an integer: a minus sign before the digits of |n|. */
  function IntText(n: int): (s: string)
    ensures n >= 0 ==> s == NatText(n)
    ensures n < 0 ==> s == "-" + NatText(-n)
  {
    if n < 0 then "-" + NatText(-n) else NatText(n)
  }

  /** The digits of `NatText(n)` read back give `n`. */
  lemma {:induction false} DecimalNatText(n: nat)
    ensures Decimal(NatText(n)) == n
  {
    if n >= 10 {
      DecimalNatText(n / 10);
      var s := NatText(n);
      assert s[..|s| - 1] == NatText(n / 10);
    }
  }

  /** What `String(n)` says: a leading `-` exactly for a negative number, then
      a non-empty run of digits whose value is the absolute value of `n`. */
  lemma IntTextValue(n: int)
    ensures |IntText(n)| >= 1
    ensures IntText(n)[0] == '-' <==> n < 0
    ensures var ds := if n < 0 then IntText(n)[1..] else IntText(n);
            |ds| >= 1 && AllDigits(ds) && Decimal(ds) == (if n < 0 then -n else n)
  {
    var m := if n < 0 then -n else n;
    DecimalNatText(m);
    if n < 0 {
      assert IntText(n)[1..] == NatText(m);
    }
  }

  /** Different naturals have different decimal texts. */
  lemma NatTextInjective(m: nat, n: nat)
    requires NatText(m) == NatText(n)
    ensures m == n
  {
    DecimalNatText(m);
    DecimalNatText(n);
  }

  /** Different integers have different texts: `String(a) === String(b)`
      compares integers exactly. */
  lemma IntTextInjective(m: int, n: int)
    requires IntText(m) == IntText(n)
    ensures m == n
  {
    if m >= 0 && n >= 0 {
      NatTextInjective(m, n);
    } else if m < 0 && n < 0 {
      assert NatText(-m) == IntText(m)[1..] == IntText(n)[1..] == NatText(-n);
      NatTextInjective(-m, -n);
    }
  }

  /** Leading zeros do not change the number a digit run denotes. */
  lemma {:induction false} DecimalLeadingZero(ds: string)
    requires AllDigits(ds)
    ensures Decimal("0" + ds) == Decimal(ds)
  {
    if ds != [] {
      var z := "0" + ds;
      assert z[..|z| - 1] == "0" + ds[..|ds| - 1];
      DecimalLeadingZero(ds[..|ds| - 1]);
    }
  }

  /** The longest prefix of `s` made of decimal digits. */
  function DigitPrefix(s: string): (ds: string)
    ensures AllDigits(ds) && StartsWith(s, ds)
    ensures |ds| < |s| ==> !IsDigit(s[|ds|])
  {
    if s != [] && IsDigit(s[0]) then [s[0]] + DigitPrefix(s[1..]) else []
  }

  /** A digit run is its own longest digit prefix, even when followed by a
      non-digit. */
  lemma {:induction false} DigitPrefixOf(ds: string, rest: string)
    requires AllDigits(ds)
    requires rest == [] || !IsDigit(rest[0])
    ensures DigitPrefix(ds + rest) == ds
  {
    if ds != [] {
      assert (ds + rest)[1..] == ds[1..] + rest;
      DigitPrefixOf(ds[1..], rest);
    } else {
      assert ds + rest == rest;
    }
  }

  /** `parseInt(s, 10)`: skip leading whitespace, take an optional sign and the
      longest run of digits; `None` is `NaN` (no digit at all). */
  function ParseInt(s: string): (r: Option<int>)
    ensures r.None? <==> DigitPrefix(SignStripped(TrimStart(s))) == []
  {
    var t := TrimStart(s);
    var ds := DigitPrefix(SignStripped(t));
    if ds == [] then None
    else if t[0] == '-' then Some(-(Decimal(ds) as int))
    else Some(Decimal(ds))
  }

  function SignStripped(t: string): (u: string)
    ensures |u| <= |t|
  {
    if t != [] && (t[0] == '-' || t[0] == '+') then t[1..] else t
  }

  /** `parseInt` reads a run of digits as the number it denotes. */
  lemma ParseIntDigits(ds: string)
    requires AllDigits(ds) && ds != []
    ensures ParseInt(ds) == Some(Decimal(ds))
  {
    TrimNoSpaceStart(ds);
    DigitPrefixOf(ds, []);
    assert ds + [] == ds;
    assert IsDigit(ds[0]);
  }

  /** `parseInt` reads back the text of a natural number. */
  lemma ParseIntNatText(n: nat)
    ensures ParseInt(NatText(n)) == Some(n)
  {
    ParseIntDigits(NatText(n));
    DecimalNatText(n);
  }

  /** `parseInt` reads back the text of a natural number padded with one
      leading zero, as `padStart(2, '0')` does. */
  lemma ParseIntPaddedNatText(n: nat)
    ensures AllDigits("0" + NatText(n)) && ParseInt("0" + NatText(n)) == Some(n)
  {
    var s := NatText(n);
    var z := "0" + s;
    assert AllDigits(z) by {
      assert forall i :: 1 <= i < |z| ==> z[i] == s[i - 1];
    }
    ParseIntDigits(z);
    DecimalLeadingZero(s);
    DecimalNatText(n);
  }

  /** A field holding a number's digits, perhaps after one leading `0`, is
      read back by trim and `parseInt` as that number. */
  lemma ReadNatField(s: string, n: nat)
    requires s == NatText(n) || s == "0" + NatText(n)
    ensures Trim(s) == s && ParseInt(Trim(s)) == Some(n)
  {
    if s == NatText(n) {
      ParseIntNatText(n);
    } else {
      ParseIntPaddedNatText(n);
    }
    TrimDigits(s);
  }

  lemma TrimNoSpaceStart(s: string)
    requires AllDigits(s) && s != []
    ensures TrimStart(s) == s && SignStripped(s) == s
  {
  }

  /** A string of digits is left as it is by trim. */
  lemma TrimDigits(s: string)
    requires AllDigits(s)
    ensures Trim(s) == s
  {
    if s != [] {
      assert IsDigit(s[0]) && IsDigit(s[|s| - 1]);
    }
    TrimOfTrimmed(s);
  }

  // ---------------------------------------------------------------------------
  // parseFloat
  // ---------------------------------------------------------------------------

  /** The exponent part `e`/`E`, optional sign, digits, if `s` starts with one. */
  function ExponentOf(s: string): int {
    if |s| >= 2 && (s[0] == 'e' || s[0] == 'E') then
      var signed := s[1] == '-' || s[1] == '+';
      var ds := DigitPrefix(if signed then s[2..] else s[1..]);
      if ds == [] then 0 else if s[1] == '-' then -(Decimal(ds) as int) else Decimal(ds)
    else 0
  }

  /** `m` times ten to the power `e`, one factor of ten at a time. */
  function Scale(m: real, e: int): (r: real)
    ensures m >= 0.0 ==> r >= 0.0
    decreases if e >= 0 then e else -e
  {
    if e == 0 then m
    else if e > 0 then Scale(m * 10.0, e - 1)
    else Scale(m / 10.0, e + 1)
  }

  /** The value of the unsigned decimal literal at the start of `body`:
      digits, an optional fraction and an optional exponent; `None` when there
      is no digit before or after the point. */
  function UnsignedDecimal(body: string): Option<real> {
    var whole := DigitPrefix(body);
    var afterWhole := body[|whole|..];
    var dotted := afterWhole != [] && afterWhole[0] == '.';
    var frac := if dotted then DigitPrefix(afterWhole[1..]) else [];
    var afterMantissa := if dotted then afterWhole[1 + |frac|..] else afterWhole;
    if whole == [] && frac == [] then None
    else Some(Scale(Decimal(whole) as real + Fraction(frac), ExponentOf(afterMantissa)))
  }

  /** The value of the digits after a decimal point: one tenth per digit. */
  function Fraction(frac: string): real
    requires AllDigits(frac)
  {
    Scale(Decimal(frac) as real, -|frac|)
  }

  /** `10^k`. */
  function Pow10(k: nat): (p: nat)
    ensures p >= 1
  {
    if k == 0 then 1 else 10 * Pow10(k - 1)
  }

  /** Scaling down by `k` powers of ten is dividing by `10^k`. */
  lemma {:induction false} ScaleDown(m: real, k: nat)
    ensures Scale(m, -(k as int)) == m / Pow10(k) as real
    decreases k
  {
    if k > 0 {
      ScaleDown(m / 10.0, k - 1);
      var p := Pow10(k - 1) as real;
      assert Pow10(k) as real == 10.0 * p;
      DivideTwice(m, p);
    }
  }

  lemma DivideTwice(m: real, p: real)
    requires p >= 1.0
    ensures (m / 10.0) / p == m / (10.0 * p)
  {
  }

  /** The digits after the point are worth their number over `10^|frac|`. */
  lemma FractionValue(frac: string)
    requires AllDigits(frac)
    ensures Fraction(frac) == Decimal(frac) as real / Pow10(|frac|) as real
  {
    ScaleDown(Decimal(frac) as real, |frac|);
  }

  /** `parseFloat` on finite decimal literals: skip leading whitespace, take an
      optional sign and the longest unsigned decimal literal; `None` is `NaN`. */
  function ParseFloat(s: string): (r: Option<real>)
    ensures r.None? ==> DigitPrefix(SignStripped(TrimStart(s))) == []
  {
    SignedDecimal(TrimStart(s))
  }

  /** The literal at the start of `t`, after an optional sign. */
  function SignedDecimal(t: string): (r: Option<real>)
    ensures r.None? ==> DigitPrefix(SignStripped(t)) == []
  {
    if t == [] then None
    else
      match UnsignedDecimal(SignStripped(t))
      case None => None
      case Some(v) => Some(if t[0] == '-' then -v else v)
  }

  /** The decimal literal `<whole>.<frac>` denotes the whole part plus the
      fraction's digits over `10^|frac|`. */
  lemma UnsignedDecimalLiteral(whole: string, frac: string)
    requires AllDigits(whole) && whole != [] && AllDigits(frac)
    ensures UnsignedDecimal(whole + "." + frac) == Some(Decimal(whole) as real + Fraction(frac))
  {
    var body := whole + "." + frac;
    var tail := "." + frac;
    assert body == whole + tail;
    DigitPrefixOf(whole, tail);
    assert body[|whole|..] == tail;
    assert tail[1..] == frac;
    DigitPrefixOf(frac, []);
    assert frac + [] == frac;
    assert tail[1 + |frac|..] == [];
    assert ExponentOf([]) == 0;
  }

  /** `parseFloat` is `NaN` exactly when, after the white space and the
      sign, there is neither a digit nor a point followed by a digit. */
  lemma ParseFloatNaN(s: string)
    ensures var u := SignStripped(TrimStart(s));
            ParseFloat(s).None? <==> DigitPrefix(u) == [] && !(|u| >= 2 && u[0] == '.' && IsDigit(u[1]))
  {
    UnsignedDecimalNone(SignStripped(TrimStart(s)));
  }

  lemma UnsignedDecimalNone(u: string)
    ensures UnsignedDecimal(u).None? <==> DigitPrefix(u) == [] && !(|u| >= 2 && u[0] == '.' && IsDigit(u[1]))
  {
    if DigitPrefix(u) == [] {
      assert u[0..] == u;
      if |u| >= 2 && u[0] == '.' {
        assert u[1..] != [] && u[1..][0] == u[1];
      }
    }
  }

  /** A sign before a text that starts with a digit is read as a sign. */
  lemma SignedText(negative: bool, body: string)
    requires body != [] && IsDigit(body[0])
    ensures var text := (if negative then "-" else "") + body;
            TrimStart(text) == text && SignStripped(text) == body && (text[0] == '-' <==> negative)
  {
    var text := (if negative then "-" else "") + body;
    assert !IsSpace(text[0]);
  }

  /** A text with no leading white space whose unsigned part is a literal of
      value `v` reads as `v`, negated after a minus sign. */
  lemma ParseFloatOf(text: string, body: string, v: real)
    requires text != [] && TrimStart(text) == text && SignStripped(text) == body
    requires UnsignedDecimal(body) == Some(v)
    ensures ParseFloat(text) == Some(if text[0] == '-' then -v else v)
  {
    SignedDecimalOf(text, body, v);
  }

  lemma SignedDecimalOf(text: string, body: string, v: real)
    requires text != [] && SignStripped(text) == body
    requires UnsignedDecimal(body) == Some(v)
    ensures SignedDecimal(text) == Some(if text[0] == '-' then -v else v)
  {
  }

  /** `parseFloat` of a decimal literal `<whole>.<frac>`, with an optional
      minus sign, is the number it writes: the whole part plus the fraction
      (`FractionValue`: the fraction's digits over `10^|frac|`). */
  lemma ParseFloatDecimal(negative: bool, whole: string, frac: string)
    requires AllDigits(whole) && whole != [] && AllDigits(frac)
    ensures var v := Decimal(whole) as real + Fraction(frac);
            ParseFloat((if negative then "-" else "") + (whole + "." + frac)) == Some(if negative then -v else v)
  {
    var body := whole + "." + frac;
    var text := (if negative then "-" else "") + body;
    UnsignedDecimalLiteral(whole, frac);
    assert body[0] == whole[0];
    SignedText(negative, body);
    ParseFloatOf(text, body, Decimal(whole) as real + Fraction(frac));
  }

  /** A plain run of digits is read as the number it denotes. */
  lemma UnsignedDecimalDigits(ds: string)
    requires AllDigits(ds) && ds != []
    ensures UnsignedDecimal(ds) == Some(Decimal(ds) as real)
  {
    DigitPrefixOf(ds, []);
    assert ds + [] == ds;
    assert ds[|ds|..] == [];
  }

  /** `parseFloat` reads an integer's text back as that integer. */
  lemma ParseFloatIntText(n: int)
    ensures ParseFloat(IntText(n)) == Some(n as real)
  {
    var s := NatText(if n < 0 then -n else n);
    DecimalNatText(if n < 0 then -n else n);
    UnsignedDecimalDigits(s);
    SignedText(n < 0, s);
    var t := (if n < 0 then "-" else "") + s;
    assert IntText(n) == t;
    ParseFloatOf(t, s, Decimal(s) as real);
  }
}
