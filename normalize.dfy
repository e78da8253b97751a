/**
 * The field normalisers of app.js: `normalizeNumber` (a rewrite of the
 * separators followed by JavaScript's `Number`), `normalizeDate` and
 * `guessThumb`.
 *
 * `Number(s)` is modelled on the string grammar of ECMAScript's
 * StringNumericLiteral (decimal literals with optional fraction and exponent,
 * and the 0x / 0o / 0b integer forms), except its Infinity literals, which
 * the model reads as NaN. The value is an exact `real`: rounding to double
 * precision is not modelled.
 */
module Normalize {
  import opened Text

  // ---------------------------------------------------------------------
  // Digits and their values
  // ---------------------------------------------------------------------

  /** The value of a digit character in bases up to 16, and 16 for any other character. */
  function DigitValue(c: char): (v: nat)
    ensures v <= 16
    ensures IsDigit(c) <==> v < 10
  {
    if '0' <= c <= '9' then c as int - '0' as int
    else if 'a' <= c <= 'f' then c as int - 'a' as int + 10
    else if 'A' <= c <= 'F' then c as int - 'A' as int + 10
    else 16
  }

  predicate AllIn(s: string, base: nat) {
    forall i :: 0 <= i < |s| ==> DigitValue(s[i]) < base
  }

  /** The value of a digit string in the given base, most significant digit first. */
  function ValueIn(s: string, base: nat): nat
    decreases |s|
  {
    if s == [] then 0 else base * ValueIn(s[..|s| - 1], base) + DigitValue(s[|s| - 1])
  }

  function Val(s: string): nat {
    ValueIn(s, 10)
  }

  lemma ValSnoc(p: string, c: char)
    ensures Val(p + [c]) == 10 * Val(p) + DigitValue(c)
  {
    assert (p + [c])[..|p|] == p;
  }

  function Pow10(n: nat): (r: real)
    ensures r >= 1.0
  {
    if n == 0 then 1.0 else 10.0 * Pow10(n - 1)
  }

  /** 10 to an integer power. */
  function Scale(e: int): (r: real)
    ensures r > 0.0
  {
    if e >= 0 then Pow10(e) else 1.0 / Pow10(-e)
  }

  /** Length of the run of decimal digits at the start of `s`. */
  function DigitRun(s: string): (k: nat)
    ensures k <= |s|
    ensures AllDigits(s[..k])
    ensures k < |s| ==> !IsDigit(s[k])
  {
    if s != [] && IsDigit(s[0]) then
      var k := 1 + DigitRun(s[1..]);
      assert s[..k] == [s[0]] + s[1..][..k - 1];
      k
    else 0
  }

  lemma {:induction false} DigitRunAt(p: string, rest: string)
    requires AllDigits(p)
    requires rest == [] || !IsDigit(rest[0])
    ensures DigitRun(p + rest) == |p|
  {
    if p != [] {
      assert (p + rest)[1..] == p[1..] + rest;
      DigitRunAt(p[1..], rest);
    }
  }

  // ---------------------------------------------------------------------
  // Number(s)
  // ---------------------------------------------------------------------

  /** The base named by the letter after a leading '0': x, o or b in either case; 0 for no base. */
  function Radix(c: char): nat {
    if c == 'x' || c == 'X' then 16
    else if c == 'o' || c == 'O' then 8
    else if c == 'b' || c == 'B' then 2
    else 0
  }

  /** A non-empty digit string of the given base, or nothing. */
  function DigitsIn(s: string, base: nat): Option<real> {
    if s != [] && AllIn(s, base) then Some(ValueIn(s, base) as real) else None
  }

  /** An exponent part: empty, or e/E with an optional sign and at least one digit. */
  function Exponent(s: string): Option<int> {
    if s == [] then Some(0)
    else if s[0] != 'e' && s[0] != 'E' then None
    else
      var r := s[1..];
      var neg := r != [] && r[0] == '-';
      var ds := if r != [] && (r[0] == '-' || r[0] == '+') then r[1..] else r;
      if ds != [] && AllDigits(ds) then Some(if neg then -(Val(ds) as int) else Val(ds) as int) else None
  }

  /**
   * An unsigned decimal literal: digits, an optional '.' with optional
   * digits, and an optional exponent, with at least one digit before the
   * exponent ("5.", ".5" and "5" are numbers, "." is not).
   */
  function Unsigned(u: string): Option<real> {
    var i := DigitRun(u);
    var whole := u[..i];
    var rest := u[i..];
    var dot := rest != [] && rest[0] == '.';
    var afterDot := if dot then rest[1..] else [];
    var j := DigitRun(afterDot);
    var frac := afterDot[..j];
    var tail := if dot then afterDot[j..] else rest;
    if whole == [] && frac == [] then None
    else match Exponent(tail)
      case None => None
      case Some(e) => Some((Val(whole) as real + Val(frac) as real / Pow10(|frac|)) * Scale(e))
  }

  function Negate(n: Option<real>): Option<real> {
    match n
    case None => None
    case Some(x) => Some(-x)
  }

  /**
   * `Number(s)`: surrounding white space is ignored, the empty string is 0,
   * a leading "0x", "0o" or "0b" introduces an unsigned integer in that
   * base, and otherwise an optionally signed decimal literal is read. None
   * stands for NaN.
   */
  function ParseNumber(s: string): Option<real> {
    var t := Trim(s);
    if t == [] then Some(0.0)
    else if |t| >= 2 && t[0] == '0' && Radix(t[1]) > 0 then DigitsIn(t[2..], Radix(t[1]))
    else if t[0] == '+' then Unsigned(t[1..])
    else if t[0] == '-' then Negate(Unsigned(t[1..]))
    else Unsigned(t)
  }

  /** The value of a plain decimal text written with '.' as the decimal mark. */
  function Decimal(whole: string, frac: string): real {
    Val(whole) as real + Val(frac) as real / Pow10(|frac|)
  }

  /** A text with no sign and no base prefix, free of white space at its ends, is read as an unsigned decimal literal. */
  lemma ParseUnsigned(t: string)
    requires t != [] && (IsDigit(t[0]) || t[0] == '.')
    requires |t| >= 2 ==> IsDigit(t[1]) || t[1] == '.'
    requires IsDigit(t[|t| - 1]) || t[|t| - 1] == '.'
    ensures ParseNumber(t) == Unsigned(t)
  {
    assert !IsSpace(t[0]) && !IsSpace(t[|t| - 1]);
    TrimOfTrimmed(t);
    assert Trim(t) == t;
    assert !(|t| >= 2 && t[0] == '0' && Radix(t[1]) > 0);
  }

  /** Digits read as their value. */
  lemma UnsignedDigits(p: string)
    requires p != [] && AllDigits(p)
    ensures Unsigned(p) == Some(Val(p) as real)
  {
    DigitRunAt(p, []);
    assert p[..|p|] == p && p[|p|..] == [];
  }

  /** Digits, '.', digits read as whole part plus fraction, whichever side is empty (but not both). */
  lemma UnsignedDecimal(p: string, q: string)
    requires AllDigits(p) && AllDigits(q) && (p != [] || q != [])
    ensures Unsigned(p + "." + q) == Some(Decimal(p, q))
  {
    var rest := "." + q;
    var u := p + rest;
    assert p + "." + q == u;
    DigitRunAt(p, rest);
    assert u[..|p|] == p && u[|p|..] == rest;
    assert rest[1..] == q;
    DigitRunAt(q, []);
    assert q + [] == q;
    assert q[..|q|] == q && q[|q|..] == [];
    assert Exponent([]) == Some(0);
    assert Unsigned(u) == Some((Val(p) as real + Val(q) as real / Pow10(|q|)) * Scale(0));
  }

  lemma ParseDigits(p: string)
    requires p != [] && AllDigits(p)
    ensures ParseNumber(p) == Some(Val(p) as real)
  {
    ParseUnsigned(p);
    UnsignedDigits(p);
  }

  lemma ParseDecimal(p: string, q: string)
    requires AllDigits(p) && AllDigits(q) && (p != [] || q != [])
    ensures ParseNumber(p + "." + q) == Some(Decimal(p, q))
  {
    var u := p + "." + q;
    assert u[|p|] == '.';
    assert forall k :: 0 <= k < |u| ==> IsDigit(u[k]) || u[k] == '.' by {
      forall k | 0 <= k < |u| ensures IsDigit(u[k]) || u[k] == '.' {
        if k < |p| { assert u[k] == p[k]; } else if k > |p| { assert u[k] == q[k - |p| - 1]; }
      }
    }
    ParseUnsigned(u);
    UnsignedDecimal(p, q);
  }

  /** A leading minus sign negates what follows. */
  lemma ParseNegative(u: string)
    requires u != [] && !IsSpace(u[|u| - 1])
    ensures ParseNumber("-" + u) == Negate(Unsigned(u))
  {
    var t := "-" + u;
    assert t[|t| - 1] == u[|u| - 1] && t[0] == '-';
    assert Trimmed(t);
    TrimOfTrimmed(t);
    assert t[1..] == u;
  }

  /** No character of `s` is a decimal digit. */
  predicate NoDigit(s: string) {
    forall i :: 0 <= i < |s| ==> !IsDigit(s[i])
  }

  lemma NoDigitTail(s: string)
    requires s != [] && NoDigit(s)
    ensures NoDigit(s[1..])
  {
    forall i | 0 <= i < |s| - 1 ensures !IsDigit(s[1..][i]) {
      assert s[1..][i] == s[i + 1];
    }
  }

  /** A decimal literal needs a digit: without one, nothing is read. */
  lemma UnsignedNoDigit(u: string)
    requires NoDigit(u)
    ensures Unsigned(u) == None
  {
    DigitRunAt([], u);
    assert [] + u == u;
    assert u[..0] == [] && u[0..] == u;
    if u != [] && u[0] == '.' {
      var w := u[1..];
      NoDigitTail(u);
      DigitRunAt([], w);
      assert [] + w == w;
      assert w[..0] == [];
    }
  }

  /** `Number` of a text without digits: 0 when the text is blank, NaN otherwise. */
  lemma ParseNoDigit(t: string)
    requires NoDigit(t)
    ensures ParseNumber(t) == if AllSpace(t) then Some(0.0) else None
  {
    var u := Trim(t);
    TrimShape(t);
    NoDigitTrim(t);
    if u != [] {
      assert !IsDigit(u[0]);
      NoDigitTail(u);
      UnsignedNoDigit(u[1..]);
      UnsignedNoDigit(u);
    }
  }

  lemma {:induction false} NoDigitTrimStart(s: string)
    requires NoDigit(s)
    ensures NoDigit(TrimStart(s))
  {
    if s != [] && IsSpace(s[0]) {
      NoDigitTail(s);
      NoDigitTrimStart(s[1..]);
    }
  }

  /** Trimming only removes characters. */
  lemma NoDigitTrim(s: string)
    requires NoDigit(s)
    ensures NoDigit(Trim(s))
  {
    NoDigitTrimStart(s);
    TrimEndShape(TrimStart(s));
    var t := TrimStart(s);
    var e := TrimEnd(t);
    forall i | 0 <= i < |e| ensures !IsDigit(e[i]) {
      assert e[i] == t[i];
    }
  }

  // ---------------------------------------------------------------------
  // normalizeNumber
  // ---------------------------------------------------------------------

  /** The characters removed before parsing: the currency signs €, $, £ and white space. */
  predicate Noise(c: char) {
    c == '\U{20AC}' || c == '$' || c == '\U{00A3}' || IsSpace(c)
  }

  function Strip(s: string): (r: string)
    ensures forall i :: 0 <= i < |r| ==> !Noise(r[i])
    ensures |r| <= |s|
  {
    if s == [] then []
    else if Noise(s[0]) then Strip(s[1..])
    else [s[0]] + Strip(s[1..])
  }

  lemma {:induction false} StripClean(s: string)
    requires forall i :: 0 <= i < |s| ==> !Noise(s[i])
    ensures Strip(s) == s
  {
    if s != [] {
      StripClean(s[1..]);
    }
  }

  lemma {:induction false} StripAppend(a: string, b: string)
    ensures Strip(a + b) == Strip(a) + Strip(b)
  {
    if a == [] {
      assert a + b == b;
    } else {
      assert (a + b)[0] == a[0] && (a + b)[1..] == a[1..] + b;
      StripAppend(a[1..], b);
    }
  }

  lemma {:induction false} StripTrimStart(s: string)
    ensures Strip(TrimStart(s)) == Strip(s)
  {
    if s != [] && IsSpace(s[0]) {
      StripTrimStart(s[1..]);
    }
  }

  lemma {:induction false} StripTrimEnd(s: string)
    ensures Strip(TrimEnd(s)) == Strip(s)
    decreases |s|
  {
    if s != [] && IsSpace(s[|s| - 1]) {
      var s' := s[..|s| - 1];
      StripTrimEnd(s');
      assert s == s' + [s[|s| - 1]];
      StripAppend(s', [s[|s| - 1]]);
      assert Strip([s[|s| - 1]]) == [] by { assert [s[|s| - 1]][1..] == []; }
    }
  }

  /** Trimming first changes nothing, since white space is removed everywhere anyway. */
  lemma StripTrim(s: string)
    ensures Strip(Trim(s)) == Strip(s)
  {
    StripTrimStart(s);
    StripTrimEnd(TrimStart(s));
  }

  /** The decimal mark when both ',' and '.' occur: the one that occurs last. */
  function DecimalMark(s: string): char {
    if LastIndexOf(s, ',') > LastIndexOf(s, '.') then ',' else '.'
  }

  function Other(mark: char): char {
    if mark == ',' then '.' else ','
  }

  /** The separator rewrite: the decimal mark becomes '.', the thousands separator is dropped. */
  function Separators(s: string): string {
    if ',' in s && '.' in s then
      var dec := DecimalMark(s);
      ReplaceFirst(RemoveAll(s, Other(dec)), dec, '.')
    else if ',' in s then ReplaceFirst(RemoveAll(s, '.'), ',', '.')
    else RemoveAll(s, ',')
  }

  /** The text handed to `Number`. */
  function NormalizeText(s: string): string {
    Separators(Strip(Trim(s)))
  }

  /** `normalizeNumber`: null and anything `Number` rejects give 0; negative values are kept. */
  function NormalizeNumber(v: Option<string>): real {
    match v
    case None => 0.0
    case Some(s) =>
      match ParseNumber(NormalizeText(s))
      case None => 0.0
      case Some(n) => n
  }

  lemma {:induction false} RemoveKeeps(s: string, c: char, x: char)
    requires x != c
    ensures x in RemoveAll(s, c) <==> x in s
  {
    if s != [] {
      RemoveKeeps(s[1..], c, x);
      assert s == [s[0]] + s[1..];
    }
  }

  /** The first occurrence of `c` in `s` is at `f`. */
  predicate FirstAt(s: string, c: char, f: nat) {
    f < |s| && s[f] == c && c !in s[..f]
  }

  lemma ReplaceFirstSplit(s: string, c: char, rep: char, f: nat)
    requires FirstAt(s, c, f)
    ensures ReplaceFirst(s, c, rep) == s[..f] + [rep] + s[f + 1..]
  {
    assert s == s[..f] + [c] + s[f + 1..];
    ReplaceFirstAt(s[..f], s[f + 1..], c, rep);
  }

  lemma RemoveFirstAt(s: string, c: char, x: char, f: nat)
    requires FirstAt(s, x, f) && x != c
    ensures FirstAt(RemoveAll(s, c), x, |RemoveAll(s[..f], c)|)
    ensures RemoveAll(s, c) == RemoveAll(s[..f], c) + [x] + RemoveAll(s[f + 1..], c)
  {
    assert s == s[..f] + ([x] + s[f + 1..]);
    RemoveAllAppend(s[..f], [x] + s[f + 1..], c);
    assert ([x] + s[f + 1..])[1..] == s[f + 1..];
    RemoveKeeps(s[..f], c, x);
    var pre := RemoveAll(s[..f], c);
    assert (pre + [x] + RemoveAll(s[f + 1..], c))[..|pre|] == pre;
  }

  /**
   * Both marks present: the text before the first decimal mark and the
   * text after it lose every thousands separator, and the decimal mark
   * itself becomes '.'.
   */
  lemma SeparatorsBoth(s: string, f: nat)
    requires ',' in s && '.' in s
    requires FirstAt(s, DecimalMark(s), f)
    ensures Separators(s) == RemoveAll(s[..f], Other(DecimalMark(s))) + "." + RemoveAll(s[f + 1..], Other(DecimalMark(s)))
  {
    var dec, th := DecimalMark(s), Other(DecimalMark(s));
    RemoveFirstAt(s, th, dec, f);
    var r := RemoveAll(s, th);
    var g := |RemoveAll(s[..f], th)|;
    ReplaceFirstSplit(r, dec, '.', g);
    assert r[..g] == RemoveAll(s[..f], th);
    assert r[g + 1..] == RemoveAll(s[f + 1..], th);
  }

  /** Only commas: the first comma becomes '.', the others stay (and make the text unreadable as a number). */
  lemma SeparatorsCommaOnly(s: string, f: nat)
    requires '.' !in s && FirstAt(s, ',', f)
    ensures Separators(s) == s[..f] + "." + s[f + 1..]
  {
    RemoveAbsent(s, '.');
    ReplaceFirstSplit(s, ',', '.', f);
  }

  /** No comma: the text is left as it is. */
  lemma SeparatorsNoComma(s: string)
    requires ',' !in s
    ensures Separators(s) == s
  {
    RemoveAbsent(s, ',');
  }

  lemma {:induction false} NoDigitStrip(s: string)
    requires NoDigit(s)
    ensures NoDigit(Strip(s))
  {
    if s != [] {
      NoDigitTail(s);
      NoDigitStrip(s[1..]);
      var r := Strip(s[1..]);
      if !Noise(s[0]) {
        var t := [s[0]] + r;
        forall i | 0 <= i < |t| ensures !IsDigit(t[i]) {
          if i > 0 { assert t[i] == r[i - 1]; }
        }
      }
    }
  }

  lemma {:induction false} NoDigitRemove(s: string, c: char)
    requires NoDigit(s)
    ensures NoDigit(RemoveAll(s, c))
  {
    if s != [] {
      NoDigitTail(s);
      NoDigitRemove(s[1..], c);
      var h := if s[0] == c then [] else [s[0]];
      var r := RemoveAll(s[1..], c);
      var t := h + r;
      forall i | 0 <= i < |t| ensures !IsDigit(t[i]) {
        if i >= |h| { assert t[i] == r[i - |h|]; }
      }
    }
  }

  lemma {:induction false} NoDigitReplace(s: string, c: char, rep: char)
    requires NoDigit(s) && !IsDigit(rep)
    ensures NoDigit(ReplaceFirst(s, c, rep))
  {
    if s != [] {
      NoDigitTail(s);
      var t := if s[0] == c then s[1..] else ReplaceFirst(s[1..], c, rep);
      var h := if s[0] == c then rep else s[0];
      if s[0] != c {
        NoDigitReplace(s[1..], c, rep);
      }
      var r := [h] + t;
      forall i | 0 <= i < |r| ensures !IsDigit(r[i]) {
        if i > 0 { assert r[i] == t[i - 1]; }
      }
    }
  }

  /** The separator rewrite brings in no digit: it removes separators and writes '.' for one of them. */
  lemma NoDigitSeparators(s: string)
    requires NoDigit(s)
    ensures NoDigit(Separators(s))
  {
    if ',' in s && '.' in s {
      var dec := DecimalMark(s);
      NoDigitRemove(s, Other(dec));
      NoDigitReplace(RemoveAll(s, Other(dec)), dec, '.');
    } else if ',' in s {
      NoDigitRemove(s, '.');
      NoDigitReplace(RemoveAll(s, '.'), ',', '.');
    } else {
      NoDigitRemove(s, ',');
    }
  }

  /** A text with neither separators nor characters that are stripped. */
  predicate Bare(s: string) {
    forall i :: 0 <= i < |s| ==> !Noise(s[i]) && s[i] != ',' && s[i] != '.'
  }

  lemma DigitsBare(s: string)
    requires AllDigits(s)
    ensures Bare(s)
  {
  }

  lemma BareClean(s: string)
    requires Bare(s)
    ensures Strip(s) == s
  {
    StripClean(s);
  }

  lemma {:induction false} StripGrouped(a: string, b: string, c: string, th: char, dec: char)
    requires Bare(a) && Bare(b) && Bare(c) && !Noise(th) && !Noise(dec)
    ensures Strip(a + [th] + b + [dec] + c) == a + [th] + b + [dec] + c
  {
    var x1 := a + [th];
    var x2 := x1 + b;
    var x3 := x2 + [dec];
    StripAppend(x3, c);
    StripAppend(x2, [dec]);
    StripAppend(x1, b);
    StripAppend(a, [th]);
    BareClean(a); BareClean(b); BareClean(c);
    StripClean([th]); StripClean([dec]);
  }

  lemma {:induction false} LastGrouped(a: string, b: string, c: string, th: char, dec: char)
    requires th !in b && th !in c && dec !in c && th != dec
    ensures LastIndexOf(a + [th] + b + [dec] + c, dec) == |a| + 1 + |b|
    ensures LastIndexOf(a + [th] + b + [dec] + c, th) == |a|
  {
    var x1 := a + [th];
    var x2 := x1 + b;
    var x3 := x2 + [dec];
    LastIndexOfAppend(x3, c, dec);
    LastIndexOfAppend(x2, [dec], dec);
    LastIndexOfAppend(x3, c, th);
    LastIndexOfAppend(x2, [dec], th);
    LastIndexOfAppend(x1, b, th);
    LastIndexOfAppend(a, [th], th);
    assert LastIndexOf([th], th) == 0 && LastIndexOf([dec], dec) == 0;
  }

  lemma {:induction false} RemoveGrouped(a: string, b: string, c: string, th: char, dec: char)
    requires th !in a && th !in b && th !in c && th != dec
    ensures RemoveAll(a + [th] + b + [dec] + c, th) == (a + b) + [dec] + c
  {
    var x1 := a + [th];
    var x2 := x1 + b;
    var x3 := x2 + [dec];
    RemoveAllAppend(x3, c, th);
    RemoveAllAppend(x2, [dec], th);
    RemoveAllAppend(x1, b, th);
    RemoveAllAppend(a, [th], th);
    RemoveAbsent(a, th); RemoveAbsent(b, th); RemoveAbsent(c, th); RemoveAbsent([dec], th);
    assert RemoveAll([th], th) == [] by { assert [th][1..] == []; }
    assert a + [] == a;
  }

  /**
   * One separator of each kind, the second one last: the first is read as
   * the thousands separator and dropped, the second as the decimal mark.
   */
  lemma NormalizeGrouped(a: string, b: string, c: string, th: char, dec: char)
    requires Bare(a) && Bare(b) && Bare(c)
    requires (th == '.' && dec == ',') || (th == ',' && dec == '.')
    ensures NormalizeText(a + [th] + b + [dec] + c) == a + b + "." + c
  {
    var s := a + [th] + b + [dec] + c;
    assert th !in a && th !in b && th !in c && dec !in a && dec !in b && dec !in c;
    StripTrim(s);
    StripGrouped(a, b, c, th, dec);
    assert NormalizeText(s) == Separators(s);
    assert ',' in s && '.' in s by {
      assert s[|a|] == th && s[|a| + 1 + |b|] == dec;
    }
    LastGrouped(a, b, c, th, dec);
    assert DecimalMark(s) == dec && Other(dec) == th;
    assert Separators(s) == ReplaceFirst(RemoveAll(s, th), dec, '.');
    RemoveGrouped(a, b, c, th, dec);
    assert dec !in a + b;
    ReplaceFirstAt(a + b, c, dec, '.');
  }

  /**
   * A grouped number in either convention, German "1.234,56" (th '.', dec
   * ',') or English "1,234.56" (th ',', dec '.'): the thousands separator
   * is dropped and the decimal mark read as the decimal point.
   */
  lemma NormalizeGroupedValue(a: string, b: string, c: string, th: char, dec: char)
    requires AllDigits(a) && AllDigits(b) && AllDigits(c) && (a + b != [] || c != [])
    requires (th == '.' && dec == ',') || (th == ',' && dec == '.')
    ensures NormalizeNumber(Some(a + [th] + b + [dec] + c)) == Decimal(a + b, c)
  {
    DigitsBare(a); DigitsBare(b); DigitsBare(c);
    NormalizeGrouped(a, b, c, th, dec);
    ParseDecimal(a + b, c);
  }

  /** One comma and no dot: the comma becomes the decimal mark. */
  lemma NormalizeOneComma(a: string, b: string)
    requires Bare(a) && Bare(b)
    ensures NormalizeText(a + "," + b) == a + "." + b
  {
    var x1 := a + ",";
    var s := x1 + b;
    StripTrim(s);
    StripAppend(x1, b);
    StripAppend(a, ",");
    StripClean(a); StripClean(b); StripClean(",");
    assert Strip(s) == s;
    assert ',' in x1 && '.' !in s;
    RemoveAbsent(s, '.');
    assert ',' !in a;
    ReplaceFirstAt(a, b, ',', '.');
  }

  /**
   * A single comma is always read as the decimal mark, so "1,234" is
   * 1.234 and not one thousand two hundred and thirty-four.
   */
  lemma NormalizeCommaDecimal(a: string, b: string)
    requires AllDigits(a) && AllDigits(b) && (a != [] || b != [])
    ensures NormalizeNumber(Some(a + "," + b)) == Decimal(a, b)
  {
    DigitsBare(a); DigitsBare(b);
    NormalizeOneComma(a, b);
    ParseDecimal(a, b);
  }

  /** A minus sign in front is kept: "-12,5" is -12.5; nothing clamps negative amounts. */
  lemma NormalizeNegative(a: string, b: string)
    requires AllDigits(a) && AllDigits(b) && (a != [] || b != [])
    ensures NormalizeNumber(Some("-" + a + "," + b)) == -Decimal(a, b)
  {
    DigitsBare(a); DigitsBare(b);
    NormalizeOneComma("-" + a, b);
    var u := a + "." + b;
    assert "-" + a + "." + b == "-" + u;
    assert u[|u| - 1] == '.' || IsDigit(u[|u| - 1]);
    ParseNegative(u);
    UnsignedDecimal(a, b);
  }

  /** Null gives 0, and so does the empty text. */
  lemma NormalizeEmpty()
    ensures NormalizeNumber(None) == 0.0
    ensures NormalizeNumber(Some("")) == 0.0
  {
    StripTrim("");
    SeparatorsNoComma("");
  }

  /**
   * Text without any digit is no number: it gives 0, both when `Number`
   * reads the blank remainder as 0 and when it gives NaN.
   */
  lemma NormalizeWord(s: string)
    requires NoDigit(s)
    ensures NormalizeNumber(Some(s)) == 0.0
  {
    NoDigitTrim(s);
    NoDigitStrip(Trim(s));
    NoDigitSeparators(Strip(Trim(s)));
    ParseNoDigit(NormalizeText(s));
  }

  /** "1,234" is 1.234: with a comma only, the comma is the decimal mark even before three digits. */
  lemma NormalizeCommaExample(s: string)
    requires s == "1,234"
    ensures NormalizeNumber(Some(s)) == 1.234
  {
    var a, b := "1", "234";
    assert s == a + "," + b;
    NormalizeCommaDecimal(a, b);
    ValSnoc([], '1');
    assert a == [] + ['1'];
    ValSnoc([], '2');
    ValSnoc("2", '3');
    ValSnoc("23", '4');
    assert b == "23" + ['4'] && "23" == "2" + ['3'] && "2" == [] + ['2'];
    assert Pow10(3) == 1000.0;
  }

  // ---------------------------------------------------------------------
  // normalizeDate
  // ---------------------------------------------------------------------

  /** The separators `[./-]` of the date pattern. */
  predicate DateSep(c: char) {
    c == '.' || c == '/' || c == '-'
  }

  datatype DateParts = DateParts(day: string, month: string, year: string)

  /** The text is `day sep month sep year` with 1-2, 1-2 and 4 digits. */
  predicate DateShape(s: string, p: DateParts) {
    1 <= |p.day| <= 2 && 1 <= |p.month| <= 2 && |p.year| == 4 &&
    AllDigits(p.day) && AllDigits(p.month) && AllDigits(p.year) &&
    |s| == |p.day| + |p.month| + 6 &&
    s[..|p.day|] == p.day && DateSep(s[|p.day|]) &&
    s[|p.day| + 1..|p.day| + 1 + |p.month|] == p.month && DateSep(s[|p.day| + 1 + |p.month|]) &&
    s[|s| - 4..] == p.year
  }

  /** The length of a one- or two-digit group at the start of `s`, or 0. */
  function Group(s: string): nat {
    if s == [] || !IsDigit(s[0]) then 0
    else if |s| >= 2 && IsDigit(s[1]) then 2
    else 1
  }

  /** The match of `/^(\d{1,2})[./-](\d{1,2})[./-](\d{4})$/`. */
  function MatchDate(s: string): Option<DateParts> {
    var i := Group(s);
    if i == 0 || i >= |s| || !DateSep(s[i]) then None
    else
      var t := s[i + 1..];
      var j := Group(t);
      if j == 0 || j >= |t| || !DateSep(t[j]) then None
      else
        var y := t[j + 1..];
        if |y| == 4 && AllDigits(y) then Some(DateParts(s[..i], t[..j], y)) else None
  }

  /** The matcher finds exactly the texts of the date shape, and the groups it reports. */
  lemma MatchDateSound(s: string)
    ensures MatchDate(s).Some? ==> DateShape(s, MatchDate(s).value)
  {
    if MatchDate(s).Some? {
      var i := Group(s);
      var t := s[i + 1..];
      var j := Group(t);
      assert s[i + 1..i + 1 + j] == t[..j];
      assert s[|s| - 4..] == t[j + 1..];
    }
  }

  lemma MatchDateComplete(s: string, p: DateParts)
    requires DateShape(s, p)
    ensures MatchDate(s) == Some(p)
  {
    var i := |p.day|;
    assert s[0] == p.day[0];
    assert |p.day| == 2 ==> s[1] == p.day[1];
    assert Group(s) == i;
    var t := s[i + 1..];
    var j := |p.month|;
    assert t[..j] == p.month;
    assert t[0] == p.month[0];
    assert |p.month| == 2 ==> t[1] == p.month[1];
    assert Group(t) == j;
    assert t[j] == s[i + 1 + j];
    assert t[j + 1..] == s[|s| - 4..];
  }

  /** `String(n).padStart(2, '0')` for a group of one or two digits. */
  function Pad2(g: string): string {
    if |g| < 2 then "0" + g else g
  }

  function Iso(p: DateParts): string {
    p.year + "-" + Pad2(p.month) + "-" + Pad2(p.day)
  }

  /** `normalizeDate`: '' for the empty text, the ISO form for a day-month-year text, and the trimmed text otherwise. */
  function NormalizeDate(v: string): string {
    if v == [] then ""
    else
      var s := Trim(v);
      match MatchDate(s)
      case Some(p) => Iso(p)
      case None => s
  }

  /**
   * A trimmed day-month-year text becomes year-month-day, with day and
   * month padded to two digits; the result always has ten characters.
   */
  lemma NormalizeDateShape(v: string, p: DateParts)
    requires DateShape(Trim(v), p)
    ensures NormalizeDate(v) == Iso(p)
    ensures |NormalizeDate(v)| == 10
  {
    MatchDateComplete(Trim(v), p);
  }

  /** Any other text comes back trimmed. */
  lemma NormalizeDateOther(v: string)
    requires forall p :: !DateShape(Trim(v), p)
    ensures NormalizeDate(v) == Trim(v)
  {
    MatchDateSound(Trim(v));
    if v == [] {
      assert Trim(v) == [];
    }
  }

  /** An ISO date has no white space at its ends and starts with four digits, so the day-month-year pattern rejects it. */
  lemma IsoStable(p: DateParts)
    requires |p.year| == 4 && AllDigits(p.year) && p.day != [] && AllDigits(p.day)
    ensures Trim(Iso(p)) == Iso(p) && MatchDate(Iso(p)) == None
  {
    var r := Iso(p);
    var d := Pad2(p.day);
    assert r[0] == p.year[0] && r[1] == p.year[1] && r[2] == p.year[2];
    assert IsDigit(r[0]) && IsDigit(r[1]) && IsDigit(r[2]);
    assert d[|d| - 1] == p.day[|p.day| - 1];
    assert r[|r| - 1] == d[|d| - 1];
    assert IsDigit(r[|r| - 1]);
    TrimOfTrimmed(r);
    assert Group(r) == 2;
  }

  /** A normalised date is left alone by a second normalisation. */
  lemma NormalizeDateIdempotent(v: string)
    ensures NormalizeDate(NormalizeDate(v)) == NormalizeDate(v)
  {
    var s := Trim(v);
    if v != [] {
      match MatchDate(s)
      case Some(p) =>
        MatchDateSound(s);
        IsoStable(p);
      case None =>
        TrimShape(v);
        TrimIdempotent(v);
    }
  }

  /** "5.3.2024" becomes "2024-03-05". */
  lemma NormalizeDateExample(v: string)
    requires v == "5.3.2024"
    ensures NormalizeDate(v) == "2024-03-05"
  {
    var p := DateParts("5", "3", "2024");
    assert !IsSpace(v[0]) && !IsSpace(v[|v| - 1]);
    TrimOfTrimmed(v);
    assert v[..1] == p.day && v[2..3] == p.month && v[|v| - 4..] == p.year;
    assert DateShape(v, p);
    NormalizeDateShape(v, p);
    IsoExample(p);
  }

  lemma IsoExample(p: DateParts)
    requires p == DateParts("5", "3", "2024")
    ensures Iso(p) == "2024-03-05"
  {
    assert Pad2(p.month) == "03" && Pad2(p.day) == "05";
    var a := p.year + "-";
    assert a == "2024-";
    var b := a + "03";
    assert b == "2024-03";
    var c := b + "-";
    assert c == "2024-03-";
    assert c + "05" == "2024-03-05";
  }

  // ---------------------------------------------------------------------
  // guessThumb
  // ---------------------------------------------------------------------

  const DefaultThumb: string := "assets/img/gates_of_olympus.svg"

  /** `guessThumb`: the picture of one of three known games, looked up by lower-cased name, or the default. */
  function GuessThumb(game: string): string {
    var k := ToLower(game);
    if k == "gates of olympus" then "assets/img/gates_of_olympus.svg"
    else if k == "wanted dead or a wild" then "assets/img/wanted_dead_or_a_wild.svg"
    else if k == "sweet bonanza" then "assets/img/sweet_bonanza.svg"
    else DefaultThumb
  }

  /** The lookup ignores letter case, always yields a picture, and falls back to the default. */
  lemma GuessThumbCase(game: string)
    ensures GuessThumb(ToLower(game)) == GuessThumb(game)
    ensures GuessThumb(game) in {"assets/img/gates_of_olympus.svg", "assets/img/wanted_dead_or_a_wild.svg", "assets/img/sweet_bonanza.svg"}
    ensures ToLower(game) !in {"gates of olympus", "wanted dead or a wild", "sweet bonanza"} ==> GuessThumb(game) == DefaultThumb
  {
    ToLowerIdempotent(game);
  }

  lemma GuessThumbExample()
    ensures GuessThumb("Sweet Bonanza") == "assets/img/sweet_bonanza.svg"
  {
    assert ToLower("Sweet Bonanza") == "sweet bonanza";
  }
}
