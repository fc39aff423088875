/**
  The pieces of the JavaScript string library that the template engine relies on:
  white space as `String.prototype.trim` and the regular-expression class `\s` see it,
  `trim`, `split(/\s+/)`, decimal digits, `String(n)` for integers, and the
  zero padding `('0'.repeat(z) + n).slice(-z)`.
*/
module JsText {
  import opened Wrappers

  /** ECMAScript LineTerminator: the characters that `.` in a regular expression does not match. */
  predicate IsLineTerminator(c: char) {
    c == '\n' || c == '\r' || c == '\U{2028}' || c == '\U{2029}'
  }

  /** ECMAScript WhiteSpace or LineTerminator: what `trim` removes and `\s` matches. */
  predicate IsSpace(c: char) {
    || IsLineTerminator(c)
    || c == '\t' || c == '\U{000B}' || c == '\U{000C}' || c == ' ' || c == '\U{00A0}' || c == '\U{FEFF}'
    || c == '\U{1680}' || ('\U{2000}' <= c <= '\U{200A}') || c == '\U{202F}' || c == '\U{205F}' || c == '\U{3000}'
  }

  predicate IsDigit(c: char) {
    '0' <= c <= '9'
  }

  predicate AllDigits(s: string) {
    forall i :: 0 <= i < |s| ==> IsDigit(s[i])
  }

  predicate NoSpace(s: string) {
    forall i :: 0 <= i < |s| ==> !IsSpace(s[i])
  }

  /** Neither end of `s` is white space. */
  predicate Trimmed(s: string) {
    s == [] || (!IsSpace(s[0]) && !IsSpace(s[|s| - 1]))
  }

  // ---------------------------------------------------------------- trim

  function TrimStart(s: string): (r: string)
    ensures |r| <= |s|
    ensures r == [] || !IsSpace(r[0])
  {
    if s != [] && IsSpace(s[0]) then TrimStart(s[1..]) else s
  }

  /** `TrimStart` removes a run of white space from the front and nothing else. */
  lemma {:induction false} TrimStartSuffix(s: string)
    ensures var r := TrimStart(s);
            r == s[|s| - |r|..] && forall i :: 0 <= i < |s| - |r| ==> IsSpace(s[i])
    decreases |s|
  {
    if s != [] && IsSpace(s[0]) {
      TrimStartSuffix(s[1..]);
      var r := TrimStart(s);
      assert r == TrimStart(s[1..]);
      forall i | 0 <= i < |s| - |r| ensures IsSpace(s[i]) {
        if i > 0 {
          assert s[i] == s[1..][i - 1];
        }
      }
    }
  }

  function TrimEnd(s: string): (r: string)
    ensures |r| <= |s|
    ensures r == [] || !IsSpace(r[|r| - 1])
  {
    if s != [] && IsSpace(s[|s| - 1]) then TrimEnd(s[..|s| - 1]) else s
  }

  /** `TrimEnd` removes a run of white space from the back and nothing else. */
  lemma {:induction false} TrimEndPrefix(s: string)
    ensures var r := TrimEnd(s);
            r == s[..|r|] && forall i :: |r| <= i < |s| ==> IsSpace(s[i])
    decreases |s|
  {
    if s != [] && IsSpace(s[|s| - 1]) {
      TrimEndPrefix(s[..|s| - 1]);
      var r := TrimEnd(s);
      assert r == TrimEnd(s[..|s| - 1]);
      forall i | |r| <= i < |s| ensures IsSpace(s[i]) {
        if i < |s| - 1 {
          assert s[i] == s[..|s| - 1][i];
        }
      }
    }
  }

  /** `s.trim()`: drops the white space at both ends, and nothing else. */
  function Trim(s: string): (r: string)
    ensures Trimmed(r)
    ensures |r| <= |s|
    ensures Trimmed(s) ==> r == s
  {
    var u := TrimStart(s);
    TrimEndPrefix(u);
    TrimOfTrimmed(s);
    TrimEnd(u)
  }

  /** Trimming a text that neither starts nor ends with white space changes nothing. */
  lemma TrimOfTrimmed(s: string)
    ensures Trimmed(s) ==> TrimEnd(TrimStart(s)) == s
  {
    if s != [] && Trimmed(s) {
      assert TrimStart(s) == s;
    }
  }

  /**
    `Trim` keeps one slice of its input: the white space in front of it and behind it
    is all that is dropped, and the slice has no white space at either end.
  */
  lemma TrimExact(s: string)
    ensures var r := Trim(s);
            var a := |s| - |TrimStart(s)|;
            && a + |r| <= |s| && r == s[a..a + |r|]
            && (forall i :: 0 <= i < a ==> IsSpace(s[i]))
            && (forall i :: a + |r| <= i < |s| ==> IsSpace(s[i]))
            && Trimmed(r)
  {
    var u := TrimStart(s);
    var a := |s| - |u|;
    var r := Trim(s);
    assert r == TrimEnd(u);
    TrimStartSuffix(s);
    TrimEndPrefix(u);
    SliceOfSuffix(s, a, r);
    forall i | a + |r| <= i < |s| ensures IsSpace(s[i]) {
      assert s[i] == u[i - a];
    }
  }

  lemma SliceOfSuffix(s: string, a: nat, r: string)
    requires a <= |s| && |r| <= |s| - a && r == s[a..][..|r|]
    ensures r == s[a..a + |r|]
  {
  }

  // ---------------------------------------------------------------- split(/\s+/)

  /** The first index at or after `from` that holds white space, or `|s|`. */
  function NextSpace(s: string, from: nat): (k: nat)
    requires from <= |s|
    ensures from <= k <= |s|
    ensures k < |s| ==> IsSpace(s[k])
    ensures forall i :: from <= i < k ==> !IsSpace(s[i])
    decreases |s| - from
  {
    if from == |s| || IsSpace(s[from]) then from else NextSpace(s, from + 1)
  }

  /** The end of the run of white space that starts at `from`. */
  function SpaceRunEnd(s: string, from: nat): (k: nat)
    requires from <= |s|
    ensures from <= k <= |s|
    ensures k < |s| ==> !IsSpace(s[k])
    ensures forall i :: from <= i < k ==> IsSpace(s[i])
    decreases |s| - from
  {
    if from < |s| && IsSpace(s[from]) then SpaceRunEnd(s, from + 1) else from
  }

  /**
    `s.split(/\s+/)`: the pieces between maximal runs of white space. Leading or
    trailing white space yields an empty first or last piece, and `""` splits into `[""]`.
  */
  function SplitWs(s: string): (parts: seq<string>)
    ensures |parts| >= 1
    ensures forall p :: p in parts ==> NoSpace(p)
    ensures |parts[0]| <= |s| && parts[0] == s[..|parts[0]|]
    ensures |parts[0]| < |s| ==> |parts| > 1 && IsSpace(s[|parts[0]|])
    ensures NoSpace(s) ==> parts == [s]
    ensures s != [] && !IsSpace(s[0]) ==> parts[0] != []
    decreases |s|
  {
    var k := NextSpace(s, 0);
    if k == |s| then
      [s]
    else
      var e := SpaceRunEnd(s, k);
      [s[..k]] + SplitWs(s[e..])
  }

  /** A non-empty run of white space. */
  predicate IsGap(g: string) {
    g != [] && forall i :: 0 <= i < |g| ==> IsSpace(g[i])
  }

  /** The runs of white space `SplitWs` splits at, in order. */
  function Gaps(s: string): (gaps: seq<string>)
    ensures |gaps| == |SplitWs(s)| - 1
    ensures forall g :: g in gaps ==> IsGap(g)
    decreases |s|
  {
    var k := NextSpace(s, 0);
    if k == |s| then []
    else
      var e := SpaceRunEnd(s, k);
      assert IsGap(s[k..e]);
      [s[k..e]] + Gaps(s[e..])
  }

  /** `words[0] + gaps[0] + words[1] + ... + words[n - 1]`. */
  function JoinWs(words: seq<string>, gaps: seq<string>): string
    requires |words| >= 1 && |gaps| == |words| - 1
    decreases |words|
  {
    if |words| == 1 then words[0] else words[0] + gaps[0] + JoinWs(words[1..], gaps[1..])
  }

  /** Joining the pieces of `s` with the runs of white space between them gives `s` back. */
  lemma {:induction false} SplitWsJoin(s: string)
    ensures JoinWs(SplitWs(s), Gaps(s)) == s
    decreases |s|
  {
    var k := NextSpace(s, 0);
    if k == |s| {
      assert SplitWs(s) == [s];
    } else {
      var e := SpaceRunEnd(s, k);
      var rest := s[e..];
      SplitWsStep(s, k, e);
      SplitWsJoin(rest);
      JoinStep(s, k, e, SplitWs(rest), Gaps(rest));
    }
  }

  /** Cutting `s` at `k` and `e` and joining the three slices gives `s` back. */
  lemma ThreeSlices(s: string, k: nat, e: nat)
    requires k <= e <= |s|
    ensures s[..k] + s[k..e] + s[e..] == s
  {
    assert s[..k] + s[k..e] == s[..e];
  }

  /** Joining the first piece and gap of `s` in front of a join that gives the rest gives `s`. */
  lemma JoinStep(s: string, k: nat, e: nat, words: seq<string>, gaps: seq<string>)
    requires k <= e <= |s| && |words| >= 1 && |gaps| == |words| - 1
    requires JoinWs(words, gaps) == s[e..]
    ensures JoinWs([s[..k]] + words, [s[k..e]] + gaps) == s
  {
    JoinWsCons(s[..k], s[k..e], words, gaps);
    ThreeSlices(s, k, e);
  }

  /** One step of the split: the first piece, the first gap, and the split of the rest. */
  lemma SplitWsStep(s: string, k: nat, e: nat)
    requires k == NextSpace(s, 0) && k < |s| && e == SpaceRunEnd(s, k)
    ensures SplitWs(s) == [s[..k]] + SplitWs(s[e..])
    ensures Gaps(s) == [s[k..e]] + Gaps(s[e..])
  {
  }

  lemma JoinWsCons(w: string, g: string, words: seq<string>, gaps: seq<string>)
    requires |words| >= 1 && |gaps| == |words| - 1
    ensures JoinWs([w] + words, [g] + gaps) == w + g + JoinWs(words, gaps)
  {
    assert ([w] + words)[1..] == words && ([g] + gaps)[1..] == gaps;
  }

  /** A trimmed non-empty text splits into non-empty words only. */
  lemma {:induction false} SplitWsTrimmedWords(s: string)
    requires s != [] && Trimmed(s)
    ensures forall p :: p in SplitWs(s) ==> p != []
    decreases |s|
  {
    var k := NextSpace(s, 0);
    if k < |s| {
      var e := SpaceRunEnd(s, k);
      assert !IsSpace(s[|s| - 1]);
      assert e < |s|;
      var rest := s[e..];
      assert rest[|rest| - 1] == s[|s| - 1];
      SplitWsTrimmedWords(rest);
      assert SplitWs(s) == [s[..k]] + SplitWs(rest);
    }
  }

  /** A word followed by a run of white space splits off as the first piece. */
  lemma SplitWsGap(w: string, g: string, rest: string)
    requires NoSpace(w) && IsGap(g)
    requires rest == [] || !IsSpace(rest[0])
    ensures SplitWs(w + g + rest) == [w] + SplitWs(rest)
  {
    var s := w + g + rest;
    var n := |w| + |g|;
    assert s[|w|] == g[0];
    assert forall i :: 0 <= i < |w| ==> s[i] == w[i];
    assert NextSpace(s, 0) == |w|;
    assert forall i :: |w| <= i < n ==> s[i] == g[i - |w|];
    if rest != [] {
      assert s[n] == rest[0];
    }
    assert SpaceRunEnd(s, |w|) == n;
    assert s[..|w|] == w && s[n..] == rest;
  }

  /** A word followed by one space splits off as the first piece when no more white space follows. */
  lemma SplitWsWord(w: string, rest: string)
    requires NoSpace(w)
    requires rest == [] || !IsSpace(rest[0])
    ensures SplitWs(w + " " + rest) == [w] + SplitWs(rest)
  {
    assert IsGap(" ");
    SplitWsGap(w, " ", rest);
  }

  /**
    Non-empty words joined by runs of white space split back into exactly those words:
    `split(/\s+/)` undoes any such join.
  */
  lemma {:induction false} SplitWsOfJoin(words: seq<string>, gaps: seq<string>)
    requires |words| >= 1 && |gaps| == |words| - 1
    requires forall w :: w in words ==> w != [] && NoSpace(w)
    requires forall g :: g in gaps ==> IsGap(g)
    ensures SplitWs(JoinWs(words, gaps)) == words
    decreases |words|
  {
    if |words| > 1 {
      var rest := JoinWs(words[1..], gaps[1..]);
      assert words[1] in words;
      assert forall w :: w in words[1..] ==> w in words;
      assert forall g :: g in gaps[1..] ==> g in gaps;
      JoinWsStart(words[1..], gaps[1..]);
      SplitWsOfJoin(words[1..], gaps[1..]);
      assert words[0] in words && gaps[0] in gaps;
      SplitWsGap(words[0], gaps[0], rest);
      assert words == [words[0]] + words[1..];
    } else {
      assert words[0] in words;
    }
  }

  lemma JoinWsStart(words: seq<string>, gaps: seq<string>)
    requires |words| >= 1 && |gaps| == |words| - 1 && words[0] != []
    ensures JoinWs(words, gaps) != [] && JoinWs(words, gaps)[0] == words[0][0]
  {
  }

  // ---------------------------------------------------------------- digits and String(n)

  function Pow10(k: nat): (p: nat)
    ensures p >= 1
  {
    if k == 0 then 1 else 10 * Pow10(k - 1)
  }

  function DigitOf(c: char): (d: nat)
    requires IsDigit(c)
    ensures d < 10
  {
    c as int - '0' as int
  }

  function DigitChar(d: nat): (c: char)
    requires d < 10
    ensures IsDigit(c) && DigitOf(c) == d
  {
    ('0' as int + d) as char
  }

  /** The number a string of decimal digits denotes (leading zeros allowed). */
  function DigitsValue(s: string): nat
    requires AllDigits(s)
  {
    if s == [] then 0 else DigitsValue(s[..|s| - 1]) * 10 + DigitOf(s[|s| - 1])
  }

  /** `String(n)` for a non-negative integer: its shortest decimal spelling, read back as `n`. */
  function NatToString(n: nat): (s: string)
    ensures |s| >= 1 && AllDigits(s)
    ensures DigitsValue(s) == n
    ensures |s| > 1 ==> s[0] != '0'
  {
    if n < 10 then [DigitChar(n)] else NatToString(n / 10) + [DigitChar(n % 10)]
  }

  /** `String(n)` for an integer: a minus sign in front of a negative one. */
  function IntToString(n: int): (s: string)
    ensures |s| >= 1
    ensures n >= 0 ==> AllDigits(s) && DigitsValue(s) == n && (|s| > 1 ==> s[0] != '0')
    ensures n < 0 ==> |s| >= 2 && s[0] == '-' && AllDigits(s[1..]) && DigitsValue(s[1..]) == -n && s[1] != '0'
  {
    if n < 0 then
      NatToStringLead(-n);
      "-" + NatToString(-n)
    else NatToString(n)
  }

  /** A positive number's spelling does not start with `0`. */
  lemma NatToStringLead(n: nat)
    requires n > 0
    ensures NatToString(n)[0] != '0'
  {
    if n < 10 {
      assert DigitOf(DigitChar(n)) == n;
    }
  }

  lemma {:induction false} NatToStringLength(n: nat)
    ensures n < Pow10(|NatToString(n)|)
    ensures |NatToString(n)| > 1 ==> Pow10(|NatToString(n)| - 1) <= n
  {
    if n >= 10 {
      NatToStringLength(n / 10);
    }
  }

  /** An integer's spelling holds no white space and does not start with it. */
  lemma IntToStringNoSpace(n: int)
    ensures NoSpace(IntToString(n)) && !IsSpace(IntToString(n)[0])
  {
    var s := IntToString(n);
    forall i | 0 <= i < |s| ensures !IsSpace(s[i]) {
      if n < 0 && i > 0 {
        assert s[i] == s[1..][i - 1];
      }
    }
  }

  /** Different integers have different spellings. */
  lemma IntToStringInjective(a: int, b: int)
    requires IntToString(a) == IntToString(b)
    ensures a == b
  {
  }

  function Repeat(c: char, k: nat): (r: string)
    ensures |r| == k
    ensures forall i :: 0 <= i < k ==> r[i] == c
  {
    if k == 0 then [] else [c] + Repeat(c, k - 1)
  }

  lemma {:induction false} ZerosValue(k: nat)
    ensures AllDigits(Repeat('0', k)) && DigitsValue(Repeat('0', k)) == 0
  {
    var z := Repeat('0', k);
    if k > 0 {
      assert z[..k - 1] == Repeat('0', k - 1);
      ZerosValue(k - 1);
    }
  }

  /** Leading zeros do not change the value of a digit string. */
  lemma {:induction false} LeadingZerosValue(k: nat, s: string)
    requires AllDigits(s)
    ensures AllDigits(Repeat('0', k) + s)
    ensures DigitsValue(Repeat('0', k) + s) == DigitsValue(s)
    decreases |s|
  {
    var t := Repeat('0', k) + s;
    if s == [] {
      assert t == Repeat('0', k);
      ZerosValue(k);
    } else {
      assert t[..|t| - 1] == Repeat('0', k) + s[..|s| - 1];
      LeadingZerosValue(k, s[..|s| - 1]);
    }
  }

  /**
    `('0'.repeat(z) + n).slice(-z)`: the last `z` characters of `n` behind `z` zeros.
    `slice(-0)` is `slice(0)`, so a width of 0 keeps the whole spelling of `n`.
  */
  function Pad(n: nat, z: nat): (r: string)
    ensures z > 0 ==> |r| == z
    ensures z == 0 ==> r == NatToString(n)
  {
    var s := Repeat('0', z) + NatToString(n);
    if z == 0 then s else s[|s| - z..]
  }

  /** A number below 10^z comes out of `Pad` as exactly `z` digits spelling it. */
  lemma PadValue(n: nat, z: nat)
    requires n < Pow10(z)
    ensures AllDigits(Pad(n, z)) && DigitsValue(Pad(n, z)) == n
  {
    if z > 0 {
      var m := NatToString(n);
      NatToStringFits(n, z);
      PadShape(n, z);
      LeadingZerosValue(z - |m|, m);
      var p := Repeat('0', z - |m|) + m;
      assert Pad(n, z) == p;
    }
  }

  /** Padding a number that fits puts zeros in front of its digits. */
  lemma PadShape(n: nat, z: nat)
    requires |NatToString(n)| <= z
    ensures Pad(n, z) == Repeat('0', z - |NatToString(n)|) + NatToString(n)
  {
    var m := NatToString(n);
    var zeros := Repeat('0', z);
    assert Pad(n, z) == (zeros + m)[|m|..];
    DropOfJoin(zeros, m, |m|);
    RepeatDrop('0', z, |m|);
  }

  lemma NatToStringFits(n: nat, z: nat)
    requires 0 < z && n < Pow10(z)
    ensures |NatToString(n)| <= z
  {
    NatToStringLength(n);
    if |NatToString(n)| > z {
      Pow10Monotone(z, |NatToString(n)| - 1);
    }
  }

  lemma DropOfJoin(a: string, b: string, d: nat)
    requires d <= |a|
    ensures (a + b)[d..] == a[d..] + b
  {
  }

  lemma RepeatDrop(c: char, k: nat, d: nat)
    requires d <= k
    ensures Repeat(c, k)[d..] == Repeat(c, k - d)
  {
  }

  lemma {:induction false} Pow10Monotone(a: nat, b: nat)
    requires a <= b
    ensures Pow10(a) <= Pow10(b)
    decreases b
  {
    if a < b {
      Pow10Monotone(a, b - 1);
    }
  }

  // ---------------------------------------------------------------- parseInt(s, 10)

  /** The longest prefix of `s` made of decimal digits. */
  function DigitPrefix(s: string): (r: string)
    ensures |r| <= |s| && r == s[..|r|]
    ensures AllDigits(r)
    ensures |r| < |s| ==> !IsDigit(s[|r|])
  {
    if s != [] && IsDigit(s[0]) then [s[0]] + DigitPrefix(s[1..]) else []
  }

  /** The text after an optional leading `+` or `-`. */
  function Unsigned(s: string): (r: string)
    ensures r == s || (s != [] && r == s[1..] && (s[0] == '-' || s[0] == '+'))
  {
    if s != [] && (s[0] == '-' || s[0] == '+') then s[1..] else s
  }

  function Negated(s: string): bool {
    s != [] && s[0] == '-'
  }

  /**
    `parseInt(s, 10)`: leading white space is skipped, then an optional sign, then the
    longest run of decimal digits is read and the rest ignored. An empty run is `NaN`
    (here `None`).
  */
  function ParseInt(s: string): Option<int> {
    var u := TrimStart(s);
    var ds := DigitPrefix(Unsigned(u));
    if ds == [] then None
    else if Negated(u) then Some(-(DigitsValue(ds) as int))
    else Some(DigitsValue(ds))
  }

  /** `parseInt` of a text without any digit is `NaN`. */
  lemma ParseIntWithoutDigits(s: string)
    requires forall i :: 0 <= i < |s| ==> !IsDigit(s[i])
    ensures ParseInt(s).None?
  {
    TrimStartSuffix(s);
  }

  /** Reading an integer's spelling back, with any non-digit text after it, gives the integer. */
  lemma ParseIntOfString(n: int, rest: string)
    requires rest == [] || !IsDigit(rest[0])
    ensures ParseInt(IntToString(n) + rest) == Some(n)
  {
    if n < 0 {
      ParseIntOfNegative(-n, rest);
    } else {
      ParseIntOfNatural(n, rest);
    }
  }

  /** `parseInt(String(n), 10)` is `n`. */
  lemma ParseIntOfSpelling(n: int)
    ensures ParseInt(IntToString(n)) == Some(n)
  {
    ParseIntOfString(n, []);
    assert IntToString(n) + [] == IntToString(n);
  }

  lemma ParseIntOfNegative(n: nat, rest: string)
    requires n > 0
    requires rest == [] || !IsDigit(rest[0])
    ensures ParseInt(IntToString(-(n as int)) + rest) == Some(-(n as int))
  {
    var m := NatToString(n);
    var t := IntToString(-(n as int));
    assert t == ['-'] + m;
    DropSign(t, m, rest);
    DigitPrefixOfDigits(m, rest);
    ParseIntOfMinus(t + rest, m);
  }

  lemma DropSign(t: string, m: string, rest: string)
    requires t == ['-'] + m
    ensures (t + rest)[0] == '-' && (t + rest)[1..] == m + rest
  {
    assert t + rest == ['-'] + (m + rest);
  }

  /** A minus sign directly before a run of digits reads as the negated digits. */
  lemma ParseIntOfMinus(s: string, m: string)
    requires s != [] && s[0] == '-'
    requires m != [] && AllDigits(m) && DigitPrefix(s[1..]) == m
    ensures ParseInt(s) == Some(-(DigitsValue(m) as int))
  {
    LeadingMinus(s);
  }

  lemma LeadingMinus(s: string)
    requires s != [] && s[0] == '-'
    ensures TrimStart(s) == s && Negated(s) && Unsigned(s) == s[1..]
  {
    assert !IsSpace(s[0]);
  }

  lemma ParseIntOfNatural(n: nat, rest: string)
    requires rest == [] || !IsDigit(rest[0])
    ensures ParseInt(IntToString(n) + rest) == Some(n)
  {
    var m := NatToString(n);
    var s := m + rest;
    DigitPrefixOfDigits(m, rest);
    assert IsDigit(s[0]);
    assert TrimStart(s) == s;
    assert Unsigned(s) == s;
  }

  lemma {:induction false} DigitPrefixOfDigits(m: string, rest: string)
    requires AllDigits(m)
    requires rest == [] || !IsDigit(rest[0])
    ensures DigitPrefix(m + rest) == m
    decreases |m|
  {
    if m != [] {
      assert (m + rest)[1..] == m[1..] + rest;
      DigitPrefixOfDigits(m[1..], rest);
    }
  }

  // ---------------------------------------------------------------- parseFloat(s)

  /** The value of `intDigits.fracDigits`. */
  function DecimalValue(intDigits: string, fracDigits: string): real
    requires AllDigits(intDigits) && AllDigits(fracDigits)
  {
    DigitsValue(intDigits) as real + DigitsValue(fracDigits) as real / Pow10(|fracDigits|) as real
  }

  /** `m * 10^e` for a possibly negative exponent, one factor of ten at a time. */
  function Scale(m: real, e: int): real
    decreases if e >= 0 then e else -e
  {
    if e == 0 then m
    else if e > 0 then 10.0 * Scale(m, e - 1)
    else Scale(m, e + 1) / 10.0
  }

  /** The exponent of an `e`/`E` part at the front of `s`; 0 when there is no well-formed one. */
  function ExponentOf(s: string): int {
    if s != [] && (s[0] == 'e' || s[0] == 'E') then
      var ds := DigitPrefix(Unsigned(s[1..]));
      if ds == [] then 0 else if Negated(s[1..]) then -(DigitsValue(ds) as int) else DigitsValue(ds)
    else 0
  }

  /**
    `parseFloat(s)` on finite decimal text: leading white space is skipped, then the
    longest prefix of the form `[+-] digits [. digits] [e [+-] digits]` is read, with
    at least one digit before or after the point. No such prefix is `NaN` (`None`).
  */
  function ParseFloat(s: string): Option<real> {
    var u := TrimStart(s);
    match UnsignedFloat(Unsigned(u))
    case None => None
    case Some(magnitude) => Some(if Negated(u) then -magnitude else magnitude)
  }

  /** The number at the front of `body`, which carries no sign: digits, point, digits, exponent. */
  function UnsignedFloat(body: string): Option<real> {
    var intDigits := DigitPrefix(body);
    var afterInt := body[|intDigits|..];
    if afterInt != [] && afterInt[0] == '.' then
      var fracDigits := DigitPrefix(afterInt[1..]);
      if intDigits == [] && fracDigits == [] then None
      else Some(Scale(DecimalValue(intDigits, fracDigits), ExponentOf(afterInt[1 + |fracDigits|..])))
    else if intDigits == [] then None
    else Some(Scale(DecimalValue(intDigits, []), ExponentOf(afterInt)))
  }

  /** `parseFloat` of a text without any digit is `NaN`. */
  lemma ParseFloatWithoutDigits(s: string)
    requires forall i :: 0 <= i < |s| ==> !IsDigit(s[i])
    ensures ParseFloat(s).None?
  {
    TrimStartSuffix(s);
  }

  /** `TrimStart` drops a leading run of white space and stops at the first other character. */
  lemma {:induction false} TrimStartOfSpaces(w: string, t: string)
    requires forall i :: 0 <= i < |w| ==> IsSpace(w[i])
    requires t == [] || !IsSpace(t[0])
    ensures TrimStart(w + t) == t
    decreases |w|
  {
    if w == [] {
      assert w + t == t;
    } else {
      assert (w + t)[0] == w[0] && (w + t)[1..] == w[1..] + t;
      TrimStartOfSpaces(w[1..], t);
    }
  }

  /** An optional sign in front of a body that starts with a digit or a point. */
  lemma SignThenBody(sign: string, body: string)
    requires sign == [] || sign == ['+'] || sign == ['-']
    requires body == [] || IsDigit(body[0]) || body[0] == '.'
    ensures var t := sign + body;
            && (t == [] || !IsSpace(t[0]))
            && Unsigned(t) == body && Negated(t) == Negated(sign)
  {
    var t := sign + body;
    if sign != [] {
      assert t[0] == sign[0] && t[1..] == body;
    } else {
      assert t == body;
    }
  }

  /**
    `parseFloat` skips leading white space, reads one optional `+` or `-`, and reads the
    unsigned number at the front of what follows; a `-` negates it.
  */
  lemma ParseFloatSigned(s: string, w: string, sign: string, body: string)
    requires s == w + (sign + body)
    requires forall i :: 0 <= i < |w| ==> IsSpace(w[i])
    requires sign == [] || sign == ['+'] || sign == ['-']
    requires body == [] || IsDigit(body[0]) || body[0] == '.'
    ensures UnsignedFloat(body).None? ==> ParseFloat(s).None?
    ensures UnsignedFloat(body).Some? ==>
              ParseFloat(s) == Some(if Negated(sign) then -UnsignedFloat(body).value else UnsignedFloat(body).value)
  {
    var t := sign + body;
    SignThenBody(sign, body);
    TrimStartOfSpaces(w, t);
    assert TrimStart(s) == t;
    assert Unsigned(t) == body && Negated(t) == Negated(sign);
  }

  /** Digits `ip` and a tail that is neither a digit nor a point: the tail's exponent scales `ip`. */
  lemma UnsignedFloatWhole(ip: string, tail: string)
    requires AllDigits(ip) && ip != []
    requires tail == [] || (!IsDigit(tail[0]) && tail[0] != '.')
    ensures UnsignedFloat(ip + tail) == Some(Scale(DecimalValue(ip, []), ExponentOf(tail)))
  {
    var body := ip + tail;
    DigitPrefixOfDigits(ip, tail);
    assert body[|ip|..] == tail;
  }

  /** Digits `ip`, a point, digits `fp` and a tail that is no digit: the tail's exponent scales `ip.fp`. */
  lemma UnsignedFloatPointed(ip: string, fp: string, tail: string)
    requires AllDigits(ip) && AllDigits(fp) && (ip != [] || fp != [])
    requires tail == [] || !IsDigit(tail[0])
    ensures UnsignedFloat(ip + (['.'] + (fp + tail))) == Some(Scale(DecimalValue(ip, fp), ExponentOf(tail)))
  {
    var mid := ['.'] + (fp + tail);
    var body := ip + mid;
    DigitPrefixOfDigits(ip, mid);
    var afterInt := body[|ip|..];
    assert afterInt == mid;
    assert afterInt[1..] == fp + tail;
    DigitPrefixOfDigits(fp, tail);
    var used := |ip| + 1 + |fp|;
    assert body[used..] == tail by {
      assert body[used..] == mid[1 + |fp|..];
    }
  }

  /**
    The unsigned number at the front of a body: the digits `ip`, an optional point `dot`
    with the digits `fp` after it, then a `tail` that cannot extend them. The value is
    `ip.fp`, scaled by the exponent part at the front of the tail; the rest of the tail
    is ignored.
  */
  lemma UnsignedFloatOfParts(ip: string, dot: string, fp: string, tail: string)
    requires AllDigits(ip) && AllDigits(fp)
    requires ip != [] || fp != []
    requires dot == ['.'] || (dot == [] && fp == [])
    requires tail == [] || !IsDigit(tail[0])
    requires dot == [] ==> tail == [] || tail[0] != '.'
    ensures var body := ip + (dot + (fp + tail));
            && (IsDigit(body[0]) || body[0] == '.')
            && UnsignedFloat(body) == Some(Scale(DecimalValue(ip, fp), ExponentOf(tail)))
  {
    var body := ip + (dot + (fp + tail));
    if ip != [] {
      assert body[0] == ip[0];
    } else {
      assert body[0] == dot[0];
    }
    if dot == [] {
      assert dot + (fp + tail) == tail;
      UnsignedFloatWhole(ip, tail);
    } else {
      UnsignedFloatPointed(ip, fp, tail);
    }
  }

  /** An exponent part: `e` or `E`, an optional sign, then digits up to the first non-digit. */
  lemma ExponentOfParts(s: string, e: char, sign: string, x: string, rest: string)
    requires s == [e] + (sign + (x + rest))
    requires e == 'e' || e == 'E'
    requires sign == [] || sign == ['+'] || sign == ['-']
    requires AllDigits(x) && x != []
    requires rest == [] || !IsDigit(rest[0])
    ensures ExponentOf(s) == if Negated(sign) then -(DigitsValue(x) as int) else DigitsValue(x)
  {
    var body := x + rest;
    var t := sign + body;
    assert s[0] == e && s[1..] == t;
    assert IsDigit(body[0]);
    SignThenBody(sign, body);
    DigitPrefixOfDigits(x, rest);
  }

  /**
    `parseFloat` of any text that starts, after white space and one optional sign, with a
    number `ip.fp` and a tail that cannot extend it: the number's value, scaled by the
    tail's exponent part and negated by a `-`. Whatever text follows is ignored.
  */
  lemma ParseFloatOfNumber(s: string, w: string, sign: string, body: string, ip: string, dot: string, fp: string, tail: string)
    requires s == w + (sign + body) && body == ip + (dot + (fp + tail))
    requires forall i :: 0 <= i < |w| ==> IsSpace(w[i])
    requires sign == [] || sign == ['+'] || sign == ['-']
    requires AllDigits(ip) && AllDigits(fp)
    requires ip != [] || fp != []
    requires dot == ['.'] || (dot == [] && fp == [])
    requires tail == [] || !IsDigit(tail[0])
    requires dot == [] ==> tail == [] || tail[0] != '.'
    ensures var v := Scale(DecimalValue(ip, fp), ExponentOf(tail));
            ParseFloat(s) == Some(if Negated(sign) then -v else v)
  {
    UnsignedFloatOfParts(ip, dot, fp, tail);
    ParseFloatSigned(s, w, sign, body);
  }

  /** `parseFloat("1e3")` is 1000: the exponent part is read. */
  lemma ParseFloatExponentExample(s: string)
    requires s == "1e3"
    ensures ParseFloat(s) == Some(1000.0)
  {
    var one, tail := "1", "e3";
    assert DecimalValue(one, []) == 1.0;
    ExponentThree(tail);
    ParseFloatOfNumber(s, [], [], s, one, [], [], tail);
  }

  /** The exponent part `e3` scales 1 to 1000. */
  lemma ExponentThree(tail: string)
    requires tail == "e3"
    ensures Scale(1.0, ExponentOf(tail)) == 1000.0
  {
    var three := "3";
    assert tail == ['e'] + ([] + (three + []));
    ExponentOfParts(tail, 'e', [], three, []);
    assert Pow10(3) == 1000;
  }

  /** `parseFloat("12abc")` is 12: the text after the number is ignored. */
  lemma ParseFloatTrailingExample(s: string)
    requires s == "12abc"
    ensures ParseFloat(s) == Some(12.0)
  {
    var twelve, tail := "12", "abc";
    assert ExponentOf(tail) == 0 && Pow10(0) == 1;
    assert DecimalValue(twelve, []) == 12.0;
    ParseFloatOfNumber(s, [], [], s, twelve, [], [], tail);
  }

  /** `parseFloat("+.5")` is 0.5: a leading `+` is read, and no digit is needed before the point. */
  lemma ParseFloatPlusExample(s: string)
    requires s == "+.5"
    ensures ParseFloat(s) == Some(0.5)
  {
    var plus, dot, five := "+", ".", "5";
    assert ExponentOf([]) == 0 && Pow10(0) == 1;
    assert DecimalValue([], five) == 0.5 by {
      assert DigitsValue(five) == 5 && Pow10(1) == 10;
    }
    ParseFloatOfNumber(s, [], plus, dot + five, [], dot, five, []);
  }

  // ---------------------------------------------------------------- Number.prototype.toFixed

  function Abs(x: real): real {
    if x < 0.0 then -x else x
  }

  /** The integer nearest to `y >= 0`, the larger one on a tie. */
  function RoundHalfUp(y: real): (n: nat)
    requires y >= 0.0
    ensures n as real - 0.5 <= y < n as real + 0.5
  {
    (y + 0.5).Floor
  }

  /** The digits of `n`, padded with zeros to at least `k` characters. */
  function PadDigits(n: nat, k: nat): (r: string)
    ensures |r| >= k && |r| >= 1 && AllDigits(r) && DigitsValue(r) == n
  {
    var m := NatToString(n);
    if |m| >= k then m
    else
      LeadingZerosValue(k - |m|, m);
      Repeat('0', k - |m|) + m
  }

  /** The number of units of 10^-f nearest to |x|, the larger one on a tie. */
  function FixedUnits(x: real, f: nat): (n: nat)
    ensures Abs(x) * Pow10(f) as real - 0.5 < n as real <= Abs(x) * Pow10(f) as real + 0.5
  {
    RoundHalfUp(Abs(x) * Pow10(f) as real)
  }

  /** `m` with a decimal point in front of its last `f` digits (no point when `f` is 0). */
  function PointAt(m: string, f: nat): string
    requires f < |m|
  {
    if f == 0 then m else m[..|m| - f] + "." + m[|m| - f..]
  }

  /**
    The text of `n` units of 10^-f: "-" when `negative`, then the digits of `n` padded
    to at least `f + 1`, with a decimal point in front of the last `f` of them (no
    point when `f` is 0).
  */
  function FixedText(n: nat, f: nat, negative: bool): (r: string)
    ensures |r| >= f + 1 && (negative ==> |r| >= f + 2)
    ensures (r[0] == '-') <==> negative
    ensures f > 0 ==> r[|r| - f - 1] == '.' && AllDigits(r[|r| - f..])
    ensures f == 0 ==> '.' !in r
  {
    var digits := PointAt(PadDigits(n, f + 1), f);
    PointAtShape(PadDigits(n, f + 1), f);
    if negative then
      SignedShape(digits, f);
      "-" + digits
    else digits
  }

  /** Digits with a point placed: one character longer, the point `f` from the end. */
  lemma PointAtShape(m: string, f: nat)
    requires f < |m| && AllDigits(m)
    ensures var p := PointAt(m, f);
            |p| >= f + 1 && p[0] != '-'
            && (f > 0 ==> p[|p| - f - 1] == '.' && AllDigits(p[|p| - f..]))
            && (f == 0 ==> '.' !in p)
  {
    if f > 0 {
      var p := PointAt(m, f);
      assert p[|p| - f..] == m[|m| - f..];
    } else {
      assert forall i :: 0 <= i < |m| ==> m[i] != '.';
    }
  }

  /** A minus sign in front of a placed point keeps the point and the digits after it. */
  lemma SignedShape(p: string, f: nat)
    requires |p| >= f + 1
    requires f > 0 ==> p[|p| - f - 1] == '.' && AllDigits(p[|p| - f..])
    requires f == 0 ==> '.' !in p
    ensures var r := "-" + p;
            (f > 0 ==> r[|r| - f - 1] == '.' && AllDigits(r[|r| - f..]))
            && (f == 0 ==> '.' !in r)
  {
    var r := "-" + p;
    assert r[|r| - f..] == p[|p| - f..];
    if f == 0 {
      assert forall i :: 0 <= i < |r| && i > 0 ==> r[i] == p[i - 1];
    }
  }

  /**
    `x.toFixed(f)` for an exact `x` with |x| < 10^21: "-" when `x < 0`, then the units
    of `FixedUnits(x, f)` written with exactly `f` digits after the decimal point.
  */
  function ToFixed(x: real, f: nat): string {
    FixedText(FixedUnits(x, f), f, x < 0.0)
  }

  /** The digits of a fixed-point text `p` with `f` digits after its point, the point left out. */
  function Unpoint(p: string, f: nat): string
    requires f < |p|
  {
    if f == 0 then p else p[..|p| - f - 1] + p[|p| - f..]
  }

  /** Taking the point out of `PointAt(m, f)` gives `m` back. */
  lemma PointRoundTrip(m: string, f: nat)
    requires f < |m|
    ensures |PointAt(m, f)| > f && Unpoint(PointAt(m, f), f) == m
  {
    if f > 0 {
      var k := |m| - f;
      var a, b := m[..k], m[k..];
      var p := PointAt(m, f);
      assert p == a + ("." + b);
      assert p[..k] == a;
      assert p == (a + ".") + b;
      assert p[k + 1..] == b;
      assert a + b == m;
    }
  }

  /** The digits of `FixedText(n, f, negative)`, read without its sign and its point, spell `n`. */
  lemma FixedTextValue(n: nat, f: nat, negative: bool)
    ensures var r := FixedText(n, f, negative);
            var units := Unpoint(if negative then r[1..] else r, f);
            AllDigits(units) && DigitsValue(units) == n
  {
    var m := PadDigits(n, f + 1);
    var p := PointAt(m, f);
    var r := FixedText(n, f, negative);
    assert (if negative then r[1..] else r) == p;
    PointRoundTrip(m, f);
  }

  /**
    The digits of `x.toFixed(f)`, read without its sign and its point, are the value of
    |x| in units of 10^-f, rounded to the nearest unit.
  */
  lemma ToFixedValue(x: real, f: nat)
    ensures var r := ToFixed(x, f);
            var units := Unpoint(if x < 0.0 then r[1..] else r, f);
            AllDigits(units) && DigitsValue(units) == FixedUnits(x, f)
  {
    FixedTextValue(FixedUnits(x, f), f, x < 0.0);
  }

  /** A whole number shown with two decimals is its digits followed by `.00`. */
  lemma ToFixedWhole(m: nat)
    ensures ToFixed(m as real, 2) == NatToString(m) + ".00"
  {
    if m == 0 {
      ToFixedZero();
    } else {
      ToFixedPositive(m);
    }
  }

  /** `(0).toFixed(2)` is `0.00`. */
  lemma ToFixedZero()
    ensures ToFixed(0.0, 2) == NatToString(0) + ".00"
  {
    assert Pow10(2) == 100;
    assert FixedUnits(0.0, 2) == 0;
    assert NatToString(0) == "0";
    assert PadDigits(0, 3) == "000";
    assert PointAt("000", 2) == "0.00";
  }

  lemma ToFixedPositive(m: nat)
    requires m >= 1
    ensures ToFixed(m as real, 2) == NatToString(m) + ".00"
  {
    var n := 100 * m;
    assert Pow10(2) == 100;
    assert FixedUnits(m as real, 2) == n;
    var d := NatToString(m);
    assert NatToString(10 * m) == d + "0" by {
      assert (10 * m) / 10 == m && (10 * m) % 10 == 0;
    }
    assert NatToString(n) == d + "00" by {
      assert n / 10 == 10 * m && n % 10 == 0;
    }
    assert PadDigits(n, 3) == d + "00";
    assert PointAt(d + "00", 2) == d + ".00";
  }
}
