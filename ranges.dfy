/**
  The two anchored patterns that read a range `a-b` in which either bound may carry a
  minus sign: `^(-?\d+)-(-?\d+)$` for integers and `^(-?\d*\.?\d+)-(-?\d*\.?\d+)$` for
  decimals. A match yields the two captured groups as text; the callers read their
  values with `parseInt` and `parseFloat`.
*/
module Ranges {
  import opened Wrappers
  import opened JsText

  /** The text after one optional leading minus sign. */
  function Body(t: string): (b: string)
    ensures b == t || (t != [] && t[0] == '-' && b == t[1..])
  {
    if t != [] && t[0] == '-' then t[1..] else t
  }

  /** The text matches `-?\d+`. */
  predicate IsSignedIntText(t: string) {
    Body(t) != [] && AllDigits(Body(t))
  }

  /**
    The text matches `-?\d*\.?\d+`: after the optional sign, either digits only (at
    least one), or digits (possibly none), a point and at least one digit.
  */
  predicate IsSignedDecimalText(t: string) {
    var b := Body(t);
    var whole := DigitPrefix(b);
    var rest := b[|whole|..];
    if rest == [] then whole != []
    else |rest| >= 2 && rest[0] == '.' && AllDigits(rest[1..])
  }

  /** A bound of either pattern is not empty and has no minus sign after its first character. */
  predicate IsBoundShape(t: string) {
    t != [] && forall i :: 1 <= i < |t| ==> t[i] != '-'
  }

  lemma IntTextShape(t: string)
    requires IsSignedIntText(t)
    ensures IsBoundShape(t)
  {
    var b := Body(t);
    forall i | 1 <= i < |t| ensures t[i] != '-' {
      if b == t {
        assert IsDigit(b[i]);
      } else {
        assert t[i] == b[i - 1];
        assert IsDigit(b[i - 1]);
      }
    }
  }

  lemma DecimalTextShape(t: string)
    requires IsSignedDecimalText(t)
    ensures IsBoundShape(t)
  {
    var b := Body(t);
    var whole := DigitPrefix(b);
    var rest := b[|whole|..];
    forall i | 0 <= i < |b| ensures b[i] != '-' {
      if i < |whole| {
        assert b[i] == whole[i];
      } else {
        assert b[i] == rest[i - |whole|];
        if i > |whole| {
          assert rest[i - |whole|] == rest[1..][i - |whole| - 1];
        }
      }
    }
    forall i | 1 <= i < |t| ensures t[i] != '-' {
      if b != t {
        assert t[i] == b[i - 1];
      }
    }
  }

  function SeparatorFrom(s: string, from: nat): (r: Option<nat>)
    requires 1 <= from <= |s|
    ensures r.Some? ==> from <= r.value < |s| && s[r.value] == '-' && forall i :: from <= i < r.value ==> s[i] != '-'
    ensures r.None? ==> forall i :: from <= i < |s| ==> s[i] != '-'
    decreases |s| - from
  {
    if from == |s| then None
    else if s[from] == '-' then Some(from)
    else SeparatorFrom(s, from + 1)
  }

  /**
    The first `-` after the first character. A bound contains no `-` except as its
    first character, so this is the only place the separating hyphen can be.
  */
  function SeparatorIndex(s: string): (r: Option<nat>)
    ensures r.Some? ==> 1 <= r.value < |s| && s[r.value] == '-' && forall i :: 1 <= i < r.value ==> s[i] != '-'
    ensures r.None? ==> forall i :: 1 <= i < |s| ==> s[i] != '-'
  {
    if s == [] then None else SeparatorFrom(s, 1)
  }

  lemma SeparatorAfter(x: string, y: string)
    requires IsBoundShape(x)
    ensures SeparatorIndex(x + "-" + y) == Some(|x|)
  {
    var s := x + "-" + y;
    assert s[|x|] == '-';
    assert forall i :: 1 <= i < |x| ==> s[i] == x[i];
  }

  /** The text on either side of a `-` at `k`, with the `-` between them, is the whole text. */
  lemma SplitAtSeparator(s: string, k: nat)
    requires k < |s| && s[k] == '-'
    ensures s == s[..k] + "-" + s[k + 1..]
  {
    assert s == s[..k] + [s[k]] + s[k + 1..];
  }

  /** `s.match(/^(-?\d+)-(-?\d+)$/)`: the two groups, or `None` when it does not match. */
  function MatchIntRange(s: string): (r: Option<(string, string)>)
    ensures r.Some? ==> s == r.value.0 + "-" + r.value.1
    ensures r.Some? ==> IsSignedIntText(r.value.0) && IsSignedIntText(r.value.1)
  {
    match SeparatorIndex(s)
    case None => None
    case Some(k) =>
      if IsSignedIntText(s[..k]) && IsSignedIntText(s[k + 1..]) then
        SplitAtSeparator(s, k);
        Some((s[..k], s[k + 1..]))
      else None
  }

  /** `s.match(/^(-?\d*\.?\d+)-(-?\d*\.?\d+)$/)`: the two groups, or `None` when it does not match. */
  function MatchDecimalRange(s: string): (r: Option<(string, string)>)
    ensures r.Some? ==> s == r.value.0 + "-" + r.value.1
    ensures r.Some? ==> IsSignedDecimalText(r.value.0) && IsSignedDecimalText(r.value.1)
  {
    match SeparatorIndex(s)
    case None => None
    case Some(k) =>
      if IsSignedDecimalText(s[..k]) && IsSignedDecimalText(s[k + 1..]) then
        SplitAtSeparator(s, k);
        Some((s[..k], s[k + 1..]))
      else None
  }

  /**
    The integer pattern matches exactly the texts `x-y` with `x` and `y` signed integers,
    and its groups are those `x` and `y`: no other split is possible.
  */
  lemma IntRangeExact(s: string, x: string, y: string)
    ensures MatchIntRange(s) == Some((x, y)) <==> (s == x + "-" + y && IsSignedIntText(x) && IsSignedIntText(y))
  {
    if s == x + "-" + y && IsSignedIntText(x) && IsSignedIntText(y) {
      IntTextShape(x);
      SeparatorAfter(x, y);
      assert s[..|x|] == x && s[|x| + 1..] == y;
    }
  }

  /**
    The decimal pattern matches exactly the texts `x-y` with `x` and `y` signed decimals,
    and its groups are those `x` and `y`.
  */
  lemma DecimalRangeExact(s: string, x: string, y: string)
    ensures MatchDecimalRange(s) == Some((x, y)) <==> (s == x + "-" + y && IsSignedDecimalText(x) && IsSignedDecimalText(y))
  {
    if s == x + "-" + y && IsSignedDecimalText(x) && IsSignedDecimalText(y) {
      DecimalTextShape(x);
      SeparatorAfter(x, y);
      assert s[..|x|] == x && s[|x| + 1..] == y;
    }
  }

  /** The value of a signed-integer group. */
  function SignedIntValue(t: string): int
    requires IsSignedIntText(t)
  {
    if t[0] == '-' then -(DigitsValue(Body(t)) as int) else DigitsValue(t)
  }

  /** `parseInt` reads a signed-integer group as its value, so it is never `NaN` on one. */
  lemma ParseIntOfGroup(t: string)
    requires IsSignedIntText(t)
    ensures ParseInt(t) == Some(SignedIntValue(t))
  {
    var b := Body(t);
    assert TrimStart(t) == t by {
      assert t[0] == '-' || IsDigit(t[0]);
    }
    assert Unsigned(t) == b;
    assert DigitPrefix(b) == b by {
      DigitPrefixOfDigits(b, []);
      assert b + [] == b;
    }
  }

  /** The digits after the point of a signed-decimal group (none when it has no point). */
  function FractionDigits(t: string): (f: string)
    requires IsSignedDecimalText(t)
    ensures AllDigits(f)
  {
    var b := Body(t);
    var rest := b[|DigitPrefix(b)|..];
    if rest == [] then [] else rest[1..]
  }

  /** The value of a signed-decimal group: its whole digits, its fraction digits, its sign. */
  function SignedDecimalValue(t: string): real
    requires IsSignedDecimalText(t)
  {
    var v := DecimalValue(DigitPrefix(Body(t)), FractionDigits(t));
    if t[0] == '-' then -v else v
  }

  /** The shortest spelling of a natural number is a signed decimal worth that number. */
  lemma WholeDecimalText(n: nat)
    ensures IsSignedDecimalText(NatToString(n)) && SignedDecimalValue(NatToString(n)) == n as real
  {
    var t := NatToString(n);
    assert IsDigit(t[0]);
    assert Body(t) == t;
    DigitPrefixOfDigits(t, []);
    assert t + [] == t;
  }

  /** `parseFloat` reads a signed-decimal group as its value, so it is never `NaN` on one. */
  lemma ParseFloatOfGroup(t: string)
    requires IsSignedDecimalText(t)
    ensures ParseFloat(t) == Some(SignedDecimalValue(t))
  {
    var b := Body(t);
    var whole := DigitPrefix(b);
    var frac := FractionDigits(t);
    GroupStart(t);
    if b[|whole|..] != [] {
      DigitPrefixOfDigits(frac, []);
      assert frac + [] == frac;
    }
    ParseFloatPlain(t, b, whole, frac);
  }

  /** A signed-decimal group has no white space in front, and its only sign is a leading minus. */
  lemma GroupStart(t: string)
    requires IsSignedDecimalText(t)
    ensures TrimStart(t) == t && Unsigned(t) == Body(t) && Negated(t) == (t[0] == '-')
  {
    GroupFirstChar(t);
    assert !IsSpace(t[0]) && t[0] != '+';
  }

  /** A signed-decimal group starts with a minus sign, a digit or a point. */
  lemma GroupFirstChar(t: string)
    requires IsSignedDecimalText(t)
    ensures t[0] == '-' || IsDigit(t[0]) || t[0] == '.'
  {
    var b := Body(t);
    var whole := DigitPrefix(b);
    var rest := b[|whole|..];
    if t[0] != '-' {
      assert b == t;
      if whole == [] {
        assert b[0] == rest[0];
      } else {
        assert b[0] == whole[0];
      }
    }
  }

  /**
    `parseFloat` of a text without white space in front whose unsigned part is exactly
    `whole` digits, optionally followed by a point and `frac` digits.
  */
  lemma ParseFloatPlain(s: string, b: string, whole: string, frac: string)
    requires TrimStart(s) == s && Unsigned(s) == b && DigitPrefix(b) == whole
    requires AllDigits(frac) && (whole != [] || frac != [])
    requires (b[|whole|..] == [] && frac == []) || (b[|whole|..] == ['.'] + frac && DigitPrefix(frac) == frac)
    ensures ParseFloat(s) == Some(if Negated(s) then -DecimalValue(whole, frac) else DecimalValue(whole, frac))
  {
    UnsignedFloatPlain(b, whole, frac);
  }

  lemma UnsignedFloatPlain(b: string, whole: string, frac: string)
    requires DigitPrefix(b) == whole
    requires AllDigits(frac) && (whole != [] || frac != [])
    requires (b[|whole|..] == [] && frac == []) || (b[|whole|..] == ['.'] + frac && DigitPrefix(frac) == frac)
    ensures UnsignedFloat(b) == Some(DecimalValue(whole, frac))
  {
    var afterInt := b[|whole|..];
    if afterInt != [] {
      assert afterInt[0] == '.' && afterInt[1..] == frac;
      assert afterInt[1 + |frac|..] == [];
    }
  }
}
