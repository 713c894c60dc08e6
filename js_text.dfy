/** The pieces of JavaScript's string semantics the client relies on:
    white space as `String.prototype.trim` sees it, `trim` itself, the
    rendering of a number as text and `parseInt` with no radix argument. */
module JsText {
  import opened Options
  import opened Strings

  /** White space and line terminators in the sense of `trim` and `parseInt`:
      tab, line feed, vertical tab, form feed, carriage return, space, the
      space separators of Unicode category Zs, U+2028, U+2029 and U+FEFF. */
  predicate IsJsWhite(c: char) {
    var n := c as int;
    (9 <= n <= 13) || n == 0x20 || n == 0xA0 || n == 0x1680 || (0x2000 <= n <= 0x200A)
    || n == 0x2028 || n == 0x2029 || n == 0x202F || n == 0x205F || n == 0x3000 || n == 0xFEFF
  }

  /** `s` without its leading white space. */
  function TrimStart(s: string): (r: string)
    ensures |r| <= |s| && r == s[|s| - |r|..]
    ensures forall i :: 0 <= i < |s| - |r| ==> IsJsWhite(s[i])
    ensures r == [] || !IsJsWhite(r[0])
    decreases |s|
  {
    if s != [] && IsJsWhite(s[0]) then TrimStart(s[1..]) else s
  }

  /** `s` without its trailing white space. */
  function TrimEnd(s: string): (r: string)
    ensures |r| <= |s| && r == s[..|r|]
    ensures forall i :: |r| <= i < |s| ==> IsJsWhite(s[i])
    ensures r == [] || !IsJsWhite(r[|r| - 1])
    decreases |s|
  {
    if s != [] && IsJsWhite(s[|s| - 1]) then TrimEnd(s[..|s| - 1]) else s
  }

  /** `s.trim()`. */
  function Trim(s: string): (r: string)
    ensures r == [] || (!IsJsWhite(r[0]) && !IsJsWhite(r[|r| - 1]))
    ensures s == [] || (!IsJsWhite(s[0]) && !IsJsWhite(s[|s| - 1])) ==> r == s
  {
    TrimEnd(TrimStart(s))
  }

  lemma TrimStartParts(s: string) returns (lead: string)
    ensures s == lead + TrimStart(s)
    ensures forall i :: 0 <= i < |lead| ==> IsJsWhite(lead[i])
  {
    lead := s[..|s| - |TrimStart(s)|];
  }

  lemma TrimEndParts(t: string) returns (trail: string)
    ensures t == TrimEnd(t) + trail
    ensures forall i :: 0 <= i < |trail| ==> IsJsWhite(trail[i])
  {
    var r := TrimEnd(t);
    trail := t[|r|..];
    forall i | 0 <= i < |trail| ensures IsJsWhite(trail[i]) {
      assert trail[i] == t[|r| + i];
    }
  }

  /** `trim` removes white space at both ends and nothing else. */
  lemma TrimParts(s: string) returns (lead: string, trail: string)
    ensures s == lead + Trim(s) + trail
    ensures forall i :: 0 <= i < |lead| ==> IsJsWhite(lead[i])
    ensures forall i :: 0 <= i < |trail| ==> IsJsWhite(trail[i])
  {
    lead := TrimStartParts(s);
    trail := TrimEndParts(TrimStart(s));
    Regroup(s, lead, Trim(s), trail);
  }

  /** Concatenation regrouped. */
  lemma Regroup(s: string, a: string, b: string, c: string)
    requires s == a + (b + c)
    ensures s == a + b + c
  {
  }

  /** Concatenation grouped to the right. */
  lemma Ungroup(s: string, a: string, b: string, c: string)
    requires s == a + b + c
    ensures s == a + (b + c)
  {
  }

  /** A run of white space holds no non-white character. */
  lemma NoneInWhite(w: string, c: char)
    requires forall i :: 0 <= i < |w| ==> IsJsWhite(w[i])
    requires !IsJsWhite(c)
    ensures c !in w
  {
  }

  /** `trim` keeps every character that is not white space. */
  lemma TrimKeepsChars(s: string, c: char)
    ensures c in Trim(s) ==> c in s
    ensures !IsJsWhite(c) ==> (c in Trim(s) <==> c in s)
  {
    var lead, trail := TrimParts(s);
    var r := Trim(s);
    assert c in s <==> c in lead || c in r || c in trail;
    if !IsJsWhite(c) {
      NoneInWhite(lead, c);
      NoneInWhite(trail, c);
    }
  }

  /** Leading white space does not change the result of `trim`. */
  lemma TrimAfterWhite(c: char, s: string)
    requires IsJsWhite(c)
    ensures Trim([c] + s) == Trim(s)
  {
    assert ([c] + s)[1..] == s;
  }

  // ---------------------------------------------------------------------------
  // parseInt
  // ---------------------------------------------------------------------------

  /** The value of `c` as a digit of the given radix (10 or 16), if it is one. */
  function DigitIn(c: char, radix: nat): (d: Option<nat>)
    ensures d.Some? ==> d.value < radix || (radix != 16 && d.value < 10)
  {
    if '0' <= c <= '9' then Some((c as int) - ('0' as int))
    else if radix == 16 && 'a' <= c <= 'f' then Some((c as int) - ('a' as int) + 10)
    else if radix == 16 && 'A' <= c <= 'F' then Some((c as int) - ('A' as int) + 10)
    else None
  }

  /** The length of the longest prefix of `s` made of digits of `radix`. */
  function DigitRun(s: string, radix: nat): (n: nat)
    ensures n <= |s|
    ensures forall i :: 0 <= i < n ==> DigitIn(s[i], radix).Some?
    ensures n < |s| ==> DigitIn(s[n], radix).None?
    decreases |s|
  {
    if s != [] && DigitIn(s[0], radix).Some? then 1 + DigitRun(s[1..], radix) else 0
  }

  /** The number a string of digits denotes in `radix`. */
  function DigitsValue(s: string, radix: nat): nat
    requires forall i :: 0 <= i < |s| ==> DigitIn(s[i], radix).Some?
    decreases |s|
  {
    if s == [] then 0
    else DigitsValue(s[..|s| - 1], radix) * radix + DigitIn(s[|s| - 1], radix).value
  }

  /** The magnitude part of `parseInt`, after the sign: a `0x`/`0X` prefix
      selects hexadecimal, the longest run of digits that follows is the
      value, and no digits at all give `NaN`. The contract records that the
      empty text is `NaN`, never 0. */
  function ParseMagnitude(u: string): (m: Option<nat>)
    ensures m.Some? ==> |u| > 0
  {
    var hex := |u| >= 2 && u[0] == '0' && (u[1] == 'x' || u[1] == 'X');
    var radix := if hex then 16 else 10;
    var v := if hex then u[2..] else u;
    var z := v[..DigitRun(v, radix)];
    if z == [] then None else Some(DigitsValue(z, radix))
  }

  /** `parseInt(s)` with no radix; `None` is `NaN`. Leading white space is
      skipped, one `+` or `-` is taken as the sign, and the rest is read by
      `ParseMagnitude`. The contract records that a negative value needs a
      `-` in the text: a port list without one never yields a negative port. */
  function ParseInt(s: string): (r: Option<int>)
    ensures r.Some? && r.value < 0 ==> '-' in s
  {
    var t := TrimStart(s);
    var r := ReadSigned(t);
    assert r.Some? && r.value < 0 ==> t[0] in s;
    r
  }

  /** What `parseInt` reads once the leading white space is gone: one `+` or
      `-`, then the magnitude. The contract, that a negative value comes only
      from a leading `-`, is what `ParseInt`'s own rests on. */
  function ReadSigned(t: string): (r: Option<int>)
    ensures r.Some? && r.value < 0 ==> |t| > 0 && t[0] == '-'
  {
    var negative := |t| > 0 && t[0] == '-';
    var u := if |t| > 0 && (t[0] == '-' || t[0] == '+') then t[1..] else t;
    match ParseMagnitude(u)
    case None => None
    case Some(m) =>
      var magnitude: int := m;
      Some(if negative then -magnitude else magnitude)
  }

  /** JavaScript's rendering of an integral number or `NaN` as text, which is
      what a template literal `${p}` produces. */
  function NumberToString(x: Option<int>): string {
    if x.None? then "NaN" else IntToDecimal(x.value)
  }

  lemma {:induction false} DecimalDigitsValue(n: nat)
    ensures forall i :: 0 <= i < |NatToDecimal(n)| ==> DigitIn(NatToDecimal(n)[i], 10).Some?
    ensures DigitsValue(NatToDecimal(n), 10) == n
    decreases n
  {
    var s := NatToDecimal(n);
    if n >= 10 {
      DecimalDigitsValue(n / 10);
      assert s[..|s| - 1] == NatToDecimal(n / 10);
    }
  }

  /** The text of `NaN` parses to `NaN`. */
  lemma ParseNaNText()
    ensures ParseInt("NaN") == None
  {
    assert TrimStart("NaN") == "NaN";
    assert DigitRun("NaN", 10) == 0;
  }

  /** The text of a negative number parses back to it. */
  lemma ParseNegativeText(n: int)
    requires n > 0
    ensures ParseInt("-" + NatToDecimal(n)) == Some(-n)
  {
    var d := NatToDecimal(n);
    ParseDecimalPadded("", "-", n, "");
    assert "" + "-" == "-";
    assert "-" + d + "" == "-" + d;
  }

  /** The text of a natural number parses back to it. */
  lemma ParseNatText(n: nat)
    ensures ParseInt(NatToDecimal(n)) == Some(n)
  {
    var d := NatToDecimal(n);
    ParseDecimalPadded("", "", n, "");
    assert "" + "" == "";
    assert "" + d + "" == d;
  }

  /** Parsing the text of a number gives the number back, and the text of
      `NaN` parses to `NaN`: the value of an option in the port list survives
      the round trip through the page. */
  lemma ParseNumberToString(x: Option<int>)
    ensures ParseInt(NumberToString(x)) == x
  {
    if x.None? {
      assert NumberToString(x) == "NaN";
      ParseNaNText();
    } else if x.value >= 0 {
      assert NumberToString(x) == NatToDecimal(x.value);
      ParseNatText(x.value);
    } else {
      assert NumberToString(x) == "-" + NatToDecimal(-x.value);
      ParseNegativeText(-x.value);
    }
  }

  /** Leading white space before a non-white character is all `TrimStart`
      removes. */
  lemma {:induction false} TrimStartWhitePrefix(w: string, t: string)
    requires forall i :: 0 <= i < |w| ==> IsJsWhite(w[i])
    requires t == [] || !IsJsWhite(t[0])
    ensures TrimStart(w + t) == t
    decreases |w|
  {
    if w == [] {
      assert w + t == t;
    } else {
      assert (w + t)[1..] == w[1..] + t;
      TrimStartWhitePrefix(w[1..], t);
    }
  }

  /** A run of digits followed by a non-digit is read up to its end. */
  lemma {:induction false} DigitRunPrefix(d: string, rest: string, radix: nat)
    requires forall i :: 0 <= i < |d| ==> DigitIn(d[i], radix).Some?
    requires rest == [] || DigitIn(rest[0], radix).None?
    ensures DigitRun(d + rest, radix) == |d|
    decreases |d|
  {
    if d == [] {
      assert d + rest == rest;
    } else {
      assert (d + rest)[1..] == d[1..] + rest;
      DigitRunPrefix(d[1..], rest, radix);
    }
  }

  /** The decimal text of `n` followed by text that does not start with a
      digit (nor with `x` or `X` when `n` is 0) has magnitude `n`. */
  lemma MagnitudeOfPadded(n: nat, rest: string)
    requires rest == [] || !IsDecimalDigit(rest[0])
    requires n == 0 ==> rest == [] || (rest[0] != 'x' && rest[0] != 'X')
    ensures ParseMagnitude(NatToDecimal(n) + rest) == Some(n)
  {
    var d := NatToDecimal(n);
    var u := d + rest;
    DecimalDigitsValue(n);
    if n == 0 {
      assert d == "0";
      assert |u| >= 2 ==> u[1] == rest[0];
    }
    assert !(|u| >= 2 && u[0] == '0' && (u[1] == 'x' || u[1] == 'X'));
    DigitRunPrefix(d, rest, 10);
    assert u[..|d|] == d;
  }

  /** Reading a hexadecimal magnitude: `0x` or `0X`, then a run of hex
      digits, then text that does not start with one. */
  lemma MagnitudeOfHex(x: char, h: string, rest: string)
    requires x == 'x' || x == 'X'
    requires h != [] && forall i :: 0 <= i < |h| ==> DigitIn(h[i], 16).Some?
    requires rest == [] || DigitIn(rest[0], 16).None?
    ensures ParseMagnitude(['0', x] + h + rest) == Some(DigitsValue(h, 16))
  {
    var v := h + rest;
    var u := ['0', x] + v;
    Regroup(u, ['0', x], h, rest);
    assert u[0] == '0' && u[1] == x && u[2..] == v;
    DigitRunPrefix(h, rest, 16);
    assert v[..|h|] == h;
  }

  /** A magnitude with the sign text in front of it. */
  function Signed(sign: string, m: nat): int {
    if sign == "-" then -(m as int) else m
  }

  /** `parseInt` of leading white space, an optional sign and a magnitude
      text with magnitude `m`: `m`, negated after a `-`. */
  lemma ParseSigned(w: string, sign: string, u: string, m: nat)
    requires forall i :: 0 <= i < |w| ==> IsJsWhite(w[i])
    requires sign == "" || sign == "+" || sign == "-"
    requires u != [] && !IsJsWhite(u[0]) && u[0] != '+' && u[0] != '-'
    requires ParseMagnitude(u) == Some(m)
    ensures ParseInt(w + sign + u) == Some(Signed(sign, m))
  {
    var t := sign + u;
    assert w + sign + u == w + t;
    assert t[0] == if sign == "" then u[0] else sign[0];
    TrimStartWhitePrefix(w, t);
    ReadSignedMagnitude(sign, u, m);
  }

  /** The sign and magnitude reading of a sign text followed by a magnitude
      text. */
  lemma ReadSignedMagnitude(sign: string, u: string, m: nat)
    requires sign == "" || sign == "+" || sign == "-"
    requires u != [] && u[0] != '+' && u[0] != '-'
    requires ParseMagnitude(u) == Some(m)
    ensures ReadSigned(sign + u) == Some(Signed(sign, m))
  {
    var t := sign + u;
    if sign != "" {
      assert t[0] == sign[0] && t[1..] == u;
    } else {
      assert t == u;
    }
  }

  /** `parseInt` reads a decimal number with white space before it, an
      optional sign and any text after it that does not continue the number,
      as the pieces of a `PORT` range such as `"5201 - 5203"` need. */
  lemma ParseDecimalPadded(w: string, sign: string, n: nat, rest: string)
    requires forall i :: 0 <= i < |w| ==> IsJsWhite(w[i])
    requires sign == "" || sign == "+" || sign == "-"
    requires rest == [] || !IsDecimalDigit(rest[0])
    requires n == 0 ==> rest == [] || (rest[0] != 'x' && rest[0] != 'X')
    ensures ParseInt(w + sign + NatToDecimal(n) + rest) == Some(Signed(sign, n))
  {
    var u := NatToDecimal(n) + rest;
    MagnitudeOfPadded(n, rest);
    assert u[0] == NatToDecimal(n)[0];
    ParseSigned(w, sign, u, n);
    Regroup(w + sign + u, w + sign, NatToDecimal(n), rest);
  }

  /** `parseInt` reads `0x` or `0X` followed by hex digits as a hexadecimal
      number, after white space and an optional sign. */
  lemma ParseHexPadded(w: string, sign: string, x: char, h: string, rest: string)
    requires forall i :: 0 <= i < |w| ==> IsJsWhite(w[i])
    requires sign == "" || sign == "+" || sign == "-"
    requires x == 'x' || x == 'X'
    requires h != [] && forall i :: 0 <= i < |h| ==> DigitIn(h[i], 16).Some?
    requires rest == [] || DigitIn(rest[0], 16).None?
    ensures ParseInt(w + sign + (['0', x] + h + rest)) == Some(Signed(sign, DigitsValue(h, 16)))
  {
    MagnitudeOfHex(x, h, rest);
    ParseSigned(w, sign, ['0', x] + h + rest, DigitsValue(h, 16));
  }

  /** `parseInt` is `NaN` when no digit follows the white space and the
      sign, as for a `PORT` piece such as `"abc"`. */
  lemma ParseNoDigits(w: string, sign: string, rest: string)
    requires forall i :: 0 <= i < |w| ==> IsJsWhite(w[i])
    requires sign == "" || sign == "+" || sign == "-"
    requires rest == [] || !IsDecimalDigit(rest[0])
    requires sign == "" ==> rest == [] || (!IsJsWhite(rest[0]) && rest[0] != '+' && rest[0] != '-')
    ensures ParseInt(w + sign + rest) == None
  {
    var t := sign + rest;
    assert w + sign + rest == w + t;
    assert t == [] || t[0] == if sign == "" then rest[0] else sign[0];
    TrimStartWhitePrefix(w, t);
    ReadSignedNoDigits(sign, rest);
  }

  /** No magnitude is read from text that does not start with a digit. */
  lemma MagnitudeNoDigits(rest: string)
    requires rest == [] || !IsDecimalDigit(rest[0])
    ensures ParseMagnitude(rest) == None
  {
    assert !(|rest| >= 2 && rest[0] == '0');
    assert DigitRun(rest, 10) == 0;
  }

  /** The sign and magnitude reading of a sign text followed by text that
      does not start with a digit is `NaN`. */
  lemma ReadSignedNoDigits(sign: string, rest: string)
    requires sign == "" || sign == "+" || sign == "-"
    requires rest == [] || !IsDecimalDigit(rest[0])
    requires sign == "" ==> rest == [] || (rest[0] != '+' && rest[0] != '-')
    ensures ReadSigned(sign + rest) == None
  {
    MagnitudeNoDigits(rest);
    var t := sign + rest;
    if sign != "" {
      assert t[0] == sign[0] && t[1..] == rest;
    } else {
      assert t == rest;
    }
  }
}
