/**
 * Integer coercion as the record model applies it to `id` and `profundidad`:
 * pydantic (version 1) refuses a string longer than 4300 characters and
 * otherwise calls Python's `int(str)`, which strips surrounding whitespace
 * (all of Python's whitespace except U+001C..U+001F), accepts one optional
 * sign and then decimal digits, with single underscores allowed between
 * digits.
 */
module Coerce {

  import opened Wrappers
  import opened Text

  /** pydantic's `max_str_int`: longer strings are rejected before `int()`. */
  const MaxIntLength := 4300

  predicate IsDigit(c: char)
  {
    '0' <= c <= '9'
  }

  function DigitValue(c: char): (v: nat)
    requires IsDigit(c)
    ensures v < 10
  {
    c as int - '0' as int
  }

  function DigitChar(v: nat): (c: char)
    requires v < 10
    ensures IsDigit(c) && DigitValue(c) == v
  {
    ('0' as int + v) as char
  }

  /** The whitespace `int()` strips: Python's whitespace except the four
    * separators U+001C..U+001F, which are below 127 and so are not mapped to
    * a space before CPython's ASCII-only stripping. */
  predicate IntSpace(c: char)
  {
    IsSpace(c) && !('\U{1C}' <= c <= '\U{1F}')
  }

  /** Length of the leading run of `int()` whitespace of `s`. */
  function SpanIntSpace(s: string): (n: nat)
    ensures n <= |s|
    ensures forall j :: 0 <= j < n ==> IntSpace(s[j])
    ensures n < |s| ==> !IntSpace(s[n])
  {
    if s == [] || !IntSpace(s[0]) then 0
    else
      var rest := SpanIntSpace(s[1..]);
      assert forall j :: 1 <= j < 1 + rest ==> s[j] == s[1..][j - 1];
      1 + rest
  }

  /** Length of the trailing run of `int()` whitespace of `s`. */
  function SpanIntSpaceEnd(s: string): (n: nat)
    ensures n <= |s|
    ensures forall j :: |s| - n <= j < |s| ==> IntSpace(s[j])
    ensures n < |s| ==> !IntSpace(s[|s| - n - 1])
  {
    if s == [] || !IntSpace(s[|s| - 1]) then 0
    else 1 + SpanIntSpaceEnd(s[..|s| - 1])
  }

  /** The strip inside `int()`: the slice `s[a..b]` left after removing the
    * leading and trailing whitespace. */
  function StripBounds(s: string): (ab: (nat, nat))
    ensures ab.0 <= ab.1 <= |s|
    ensures forall j :: 0 <= j < ab.0 ==> IntSpace(s[j])
    ensures forall j :: ab.1 <= j < |s| ==> IntSpace(s[j])
    ensures ab.0 < ab.1 ==> !IntSpace(s[ab.0]) && !IntSpace(s[ab.1 - 1])
  {
    var a := SpanIntSpace(s);
    if a == |s| then (a, a) else (a, |s| - SpanIntSpaceEnd(s))
  }

  /** `s` without its leading and trailing `int()` whitespace. */
  function Strip(s: string): (r: string)
    ensures |r| == StripBounds(s).1 - StripBounds(s).0 <= |s|
    ensures r != [] ==> !IntSpace(r[0]) && !IntSpace(r[|r| - 1])
    ensures forall j :: 0 <= j < |r| ==> r[j] == s[StripBounds(s).0 + j]
  {
    s[StripBounds(s).0..StripBounds(s).1]
  }

  /** Surrounding whitespace is exactly what the strip removes. */
  lemma StripAround(lead: string, core: string, trail: string)
    requires forall j :: 0 <= j < |lead| ==> IntSpace(lead[j])
    requires forall j :: 0 <= j < |trail| ==> IntSpace(trail[j])
    requires core != [] && !IntSpace(core[0]) && !IntSpace(core[|core| - 1])
    ensures Strip(lead + core + trail) == core
  {
    var s := lead + core + trail;
    var ab := StripBounds(s);
    assert s[|lead|] == core[0];
    assert s[|lead| + |core| - 1] == core[|core| - 1];
    assert ab.0 < ab.1;
    assert ab.0 == |lead|;
    assert ab.1 == |lead| + |core|;
    assert s[ab.0..ab.1] == core;
  }

  /** The digits-and-underscores literal `int()` accepts after the sign. */
  predicate IsDecimalLiteral(t: string)
  {
    && |t| > 0 && IsDigit(t[0]) && IsDigit(t[|t| - 1])
    && (forall i :: 0 <= i < |t| ==> IsDigit(t[i]) || t[i] == '_')
    && (forall i :: 0 <= i < |t| - 1 && t[i] == '_' ==> t[i + 1] != '_')
  }

  /** The value of such a literal, underscores ignored. */
  function LiteralValue(t: string): nat
    requires forall i :: 0 <= i < |t| ==> IsDigit(t[i]) || t[i] == '_'
  {
    if t == [] then 0
    else
      var init := t[..|t| - 1];
      assert forall i :: 0 <= i < |init| ==> init[i] == t[i];
      if t[|t| - 1] == '_' then LiteralValue(init)
      else 10 * LiteralValue(init) + DigitValue(t[|t| - 1])
  }

  /** What `int()` makes of the stripped text: an optional sign, then a
    * literal. */
  function ParseCore(t: string): (r: Option<int>)
    ensures r.Some? ==> t != [] && !IsSpace(t[0])
    ensures r.Some? ==> t[0] == '+' || t[0] == '-' || IsDigit(t[0])
    ensures r.Some? && t[0] == '-' ==> r.value <= 0
    ensures r.Some? && t[0] != '-' ==> r.value >= 0
  {
    if |t| > 0 && (t[0] == '+' || t[0] == '-') then
      var body := t[1..];
      if IsDecimalLiteral(body) then
        var v: int := LiteralValue(body);
        Some(if t[0] == '-' then -v else v)
      else None
    else if IsDecimalLiteral(t) then Some(LiteralValue(t))
    else None
  }

  /** pydantic's coercion of a string to `int`, or None when it raises. */
  function ParseInt(s: string): (r: Option<int>)
    ensures r.Some? ==> |s| <= MaxIntLength && !AllSpace(s)
  {
    if |s| > MaxIntLength then None else ParseCore(Strip(s))
  }

  /** The canonical decimal rendering of a natural number (`str(n)`). */
  function ShowNat(n: nat): (s: string)
    ensures |s| >= 1
    ensures forall i :: 0 <= i < |s| ==> IsDigit(s[i])
  {
    if n < 10 then [DigitChar(n)] else ShowNat(n / 10) + [DigitChar(n % 10)]
  }

  lemma {:induction false} LiteralValueShowNat(n: nat)
    ensures LiteralValue(ShowNat(n)) == n
  {
    if n >= 10 {
      var s := ShowNat(n);
      assert s[..|s| - 1] == ShowNat(n / 10);
      LiteralValueShowNat(n / 10);
    }
  }

  /** A sign-prefixed literal with surrounding whitespace coerces to its
    * value, negated after a minus sign. */
  lemma ParseLiteral(lead: string, sign: string, t: string, trail: string)
    requires forall j :: 0 <= j < |lead| ==> IntSpace(lead[j])
    requires forall j :: 0 <= j < |trail| ==> IntSpace(trail[j])
    requires sign == "" || sign == "+" || sign == "-"
    requires IsDecimalLiteral(t)
    requires |lead + sign + t + trail| <= MaxIntLength
    ensures ParseInt(lead + sign + t + trail)
      == Some(if sign == "-" then -(LiteralValue(t) as int) else LiteralValue(t))
  {
    var core := sign + t;
    assert lead + sign + t + trail == lead + core + trail;
    assert !IntSpace(core[0]) by {
      assert core[0] == if sign == "" then t[0] else sign[0];
    }
    assert !IntSpace(core[|core| - 1]) by {
      assert core[|core| - 1] == t[|t| - 1];
    }
    StripAround(lead, core, trail);
    SignedLiteral(sign, t);
  }

  lemma SignedLiteral(sign: string, t: string)
    requires sign == "" || sign == "+" || sign == "-"
    requires IsDecimalLiteral(t)
    ensures ParseCore(sign + t)
      == Some(if sign == "-" then -(LiteralValue(t) as int) else LiteralValue(t))
  {
    var core := sign + t;
    if sign != "" {
      assert core[1..] == t;
    } else {
      assert core == t;
    }
  }

  /** Coercing the rendering of `n` gives `n` back. */
  lemma ParseShowNat(n: nat)
    requires |ShowNat(n)| <= MaxIntLength
    ensures ParseInt(ShowNat(n)) == Some(n)
  {
    var s := ShowNat(n);
    assert IsDecimalLiteral(s);
    assert [] + [] + s + [] == s;
    ParseLiteral([], [], s, []);
    LiteralValueShowNat(n);
  }

  /** `k` zero digits. */
  function Zeros(k: nat): (z: string)
    ensures |z| == k && forall j :: 0 <= j < k ==> z[j] == '0'
  {
    seq(k, _ => '0')
  }

  lemma {:induction false} LiteralValueZeros(k: nat, t: string)
    requires forall i :: 0 <= i < |t| ==> IsDigit(t[i]) || t[i] == '_'
    ensures LiteralValue(Zeros(k) + t) == LiteralValue(t)
    decreases |t|, k
  {
    var s := Zeros(k) + t;
    if t == [] {
      assert s == Zeros(k);
      if k > 0 {
        assert s[..|s| - 1] == Zeros(k - 1) + [];
        LiteralValueZeros(k - 1, []);
      }
    } else {
      assert s[..|s| - 1] == Zeros(k) + t[..|t| - 1];
      LiteralValueZeros(k, t[..|t| - 1]);
    }
  }

  /** Leading zeros do not change the value: "0482910" coerces to 482910. */
  lemma ParseLeadingZeros(k: nat, n: nat)
    requires k + |ShowNat(n)| <= MaxIntLength
    ensures ParseInt(Zeros(k) + ShowNat(n)) == Some(n)
  {
    var t := Zeros(k) + ShowNat(n);
    assert forall i :: 0 <= i < |t| ==> IsDigit(t[i]);
    assert IsDecimalLiteral(t);
    assert [] + [] + t + [] == t;
    ParseLiteral([], [], t, []);
    LiteralValueZeros(k, ShowNat(n));
    LiteralValueShowNat(n);
  }

  /** U+001C is whitespace to `str.split()` but not to `int()`. */
  lemma SeparatorNotStripped()
    ensures IsSpace('\U{1C}')
    ensures ParseInt("\U{1C}5") == None
  {
    ForeignCharRejected("\U{1C}5", 0);
  }

  /** Conversely, the text around the strip is `int()` whitespace. */
  lemma StripShape(s: string) returns (lead: string, trail: string)
    ensures forall j :: 0 <= j < |lead| ==> IntSpace(lead[j])
    ensures forall j :: 0 <= j < |trail| ==> IntSpace(trail[j])
    ensures s == lead + Strip(s) + trail
  {
    var ab := StripBounds(s);
    lead, trail := s[..ab.0], s[ab.1..];
    assert forall j :: 0 <= j < |lead| ==> lead[j] == s[j];
    assert forall j :: 0 <= j < |trail| ==> trail[j] == s[ab.1 + j];
    SliceThree(s, ab.0, ab.1);
  }

  /** Conversely, a stripped text `int()` accepts is an optional sign and a
    * literal. */
  lemma ParseCoreShape(t: string) returns (sign: string, lit: string)
    requires ParseCore(t).Some?
    ensures sign == "" || sign == "+" || sign == "-"
    ensures IsDecimalLiteral(lit) && t == sign + lit
  {
    if t[0] == '+' || t[0] == '-' {
      sign, lit := t[..1], t[1..];
      assert t == sign + lit;
    } else {
      sign, lit := [], t;
      assert t == sign + lit;
    }
  }

  /** Every text the coercion accepts is `int()` whitespace, an optional
    * sign, a literal and `int()` whitespace, within the length limit: so
    * whitespace after the sign, a doubled, leading or trailing underscore and
    * any other character are refused. */
  lemma ParseIntShape(s: string) returns (lead: string, sign: string, t: string, trail: string)
    requires ParseInt(s).Some?
    ensures forall j :: 0 <= j < |lead| ==> IntSpace(lead[j])
    ensures forall j :: 0 <= j < |trail| ==> IntSpace(trail[j])
    ensures sign == "" || sign == "+" || sign == "-"
    ensures IsDecimalLiteral(t)
    ensures s == lead + sign + t + trail && |s| <= MaxIntLength
    ensures ParseInt(s) == Some(if sign == "-" then -(LiteralValue(t) as int) else LiteralValue(t))
  {
    lead, trail := StripShape(s);
    sign, t := ParseCoreShape(Strip(s));
    Regroup4(lead, sign, t, trail);
    ParseLiteral(lead, sign, t, trail);
  }

  /** Whitespace after the sign is refused. */
  lemma SpaceAfterSignRefused()
    ensures ParseInt("- 5") == None
  {
    StrippedAlready("- 5");
  }

  /** A doubled underscore is refused. */
  lemma DoubledUnderscoreRefused()
    ensures ParseInt("1__2") == None
  {
    var t := "1__2";
    StrippedAlready(t);
    assert t[1] == '_' && t[2] == '_';
    assert !IsDecimalLiteral(t);
    assert ParseCore(t) == None;
  }

  /** An underscore at either end of the literal is refused. */
  lemma EdgeUnderscoreRefused()
    ensures ParseInt("_5") == None && ParseInt("5_") == None
  {
    StrippedAlready("_5");
    StrippedAlready("5_");
  }

  lemma StrippedAlready(core: string)
    requires core != [] && !IntSpace(core[0]) && !IntSpace(core[|core| - 1])
    ensures Strip(core) == core
  {
    assert [] + core + [] == core;
    StripAround([], core, []);
  }

  /** Any character other than `int()` whitespace, a sign, a digit or an
    * underscore (a unit such as the `K` of "33Km", or a separator such as
    * U+001C) makes the coercion fail. */
  lemma ForeignCharRejected(s: string, i: nat)
    requires i < |s|
    requires !IntSpace(s[i]) && !IsDigit(s[i]) && s[i] != '+' && s[i] != '-' && s[i] != '_'
    ensures ParseInt(s) == None
  {
    if |s| <= MaxIntLength {
      var ab := StripBounds(s);
      assert ab.0 <= i < ab.1;
      var t := Strip(s);
      assert t[i - ab.0] == s[i];
      if |t| > 0 && (t[0] == '+' || t[0] == '-') {
        assert t[1..][i - ab.0 - 1] == s[i];
      }
    }
  }
}
