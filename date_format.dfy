/**
  `_formatDateTime`: a left-to-right scan of a format string that replaces the whole
  tokens YYYY, MM, DD, HH, mm, ss and SSS by fields of a local date and time and copies
  every other character.
*/
module DateFormat {
  import opened JsText

  /** The local calendar fields a JavaScript `Date` reports (`getMonth() + 1` for the month). */
  datatype DateTime = DateTime(year: int, month: nat, day: nat, hour: nat, minute: nat, second: nat, millisecond: nat)
  {
    predicate Valid() {
      1 <= month <= 12 && 1 <= day <= 31 && hour < 24 && minute < 60 && second < 60 && millisecond < 1000
    }
  }

  type LocalDate = d: DateTime | d.Valid() witness DateTime(1970, 1, 1, 0, 0, 0, 0)

  /** The characters a token can be made of. */
  predicate IsTokenLetter(c: char) {
    c == 'Y' || c == 'M' || c == 'D' || c == 'H' || c == 'm' || c == 's' || c == 'S'
  }

  /**
    The length of the token that the pattern `/YYYY|MM|DD|HH|mm|ss|SSS/` matches at the
    front of `f`, or 0 when none does. Every token repeats one token letter.
  */
  function TokenLength(f: string): (k: nat)
    ensures k <= |f|
    ensures k > 0 ==> IsTokenLetter(f[0]) && forall i :: 0 <= i < k ==> f[i] == f[0]
  {
    if |f| >= 4 && f[0] == 'Y' && f[1] == 'Y' && f[2] == 'Y' && f[3] == 'Y' then 4
    else if |f| >= 2 && f[1] == f[0] && (f[0] == 'M' || f[0] == 'D' || f[0] == 'H' || f[0] == 'm' || f[0] == 's') then 2
    else if |f| >= 3 && f[0] == 'S' && f[1] == 'S' && f[2] == 'S' then 3
    else 0
  }

  /** The texts the replacement callback returns, one per token. */
  datatype FieldTexts = FieldTexts(year: string, month: string, day: string, hour: string, minute: string, second: string, millisecond: string)

  /** `String(getFullYear())`, `pad(...)` of the other fields and the three-digit `SSS`. */
  function FieldsOf(d: LocalDate): (fs: FieldTexts)
    ensures fs.year == IntToString(d.year)
    ensures |fs.month| == 2 && |fs.day| == 2 && |fs.hour| == 2 && |fs.minute| == 2 && |fs.second| == 2
    ensures |fs.millisecond| == 3
  {
    FieldTexts(IntToString(d.year), Pad(d.month, 2), Pad(d.day, 2), Pad(d.hour, 2),
               Pad(d.minute, 2), Pad(d.second, 2), Pad(d.millisecond, 3))
  }

  /** The replacement of the token that starts with `letter`. */
  function Field(fs: FieldTexts, letter: char): string {
    match letter
    case 'Y' => fs.year
    case 'M' => fs.month
    case 'D' => fs.day
    case 'H' => fs.hour
    case 'm' => fs.minute
    case 's' => fs.second
    case _ => fs.millisecond
  }

  /**
    The scan `format.replace(/YYYY|MM|DD|HH|mm|ss|SSS/g, ...)` performs: at each position
    the token found there is replaced by its field and the scan resumes after it; any
    other character is copied.
  */
  function Substitute(fs: FieldTexts, format: string): (r: string)
    decreases |format|
  {
    if format == [] then []
    else
      var k := TokenLength(format);
      if k > 0 then Field(fs, format[0]) + Substitute(fs, format[k..])
      else [format[0]] + Substitute(fs, format[1..])
  }

  /** `_formatDateTime(date, format)` for a valid date. */
  function FormatDateTime(d: LocalDate, format: string): string {
    Substitute(FieldsOf(d), format)
  }

  /** Text without token letters is copied unchanged. */
  lemma {:induction false} FormatPlainText(fs: FieldTexts, format: string)
    requires forall i :: 0 <= i < |format| ==> !IsTokenLetter(format[i])
    ensures Substitute(fs, format) == format
    decreases |format|
  {
    if format != [] {
      FormatPlainText(fs, format[1..]);
    }
  }

  /** A token at the front of `a` is the same token at the front of `a + b` when `b` does not start with a token letter. */
  lemma TokenLengthOfJoin(a: string, b: string)
    requires a != []
    requires b == [] || !IsTokenLetter(b[0])
    ensures TokenLength(a + b) == TokenLength(a)
  {
    var s := a + b;
    assert forall i :: 0 <= i < |a| ==> s[i] == a[i];
    if |a| < |s| {
      assert s[|a|] == b[0];
    }
  }

  /**
    A token never spans the join of two pieces when the second does not start with a
    token letter, so such a format is formatted piece by piece.
  */
  lemma {:induction false} FormatConcat(fs: FieldTexts, a: string, b: string)
    requires b == [] || !IsTokenLetter(b[0])
    ensures Substitute(fs, a + b) == Substitute(fs, a) + Substitute(fs, b)
    decreases |a|
  {
    var s := a + b;
    if a == [] {
      assert s == b;
    } else {
      TokenLengthOfJoin(a, b);
      var k := TokenLength(a);
      var n := if k > 0 then k else 1;
      assert s[n..] == a[n..] + b;
      assert s[0] == a[0];
      FormatConcat(fs, a[n..], b);
      if k > 0 {
        JoinAssoc(Field(fs, a[0]), Substitute(fs, a[n..]), Substitute(fs, b));
      } else {
        JoinAssoc([a[0]], Substitute(fs, a[n..]), Substitute(fs, b));
      }
    }
  }

  /** Every field but the year is exactly its width in digits, spelling the field's value. */
  lemma FieldDigits(d: LocalDate)
    ensures var fs := FieldsOf(d);
            && AllDigits(fs.month) && DigitsValue(fs.month) == d.month
            && AllDigits(fs.day) && DigitsValue(fs.day) == d.day
            && AllDigits(fs.hour) && DigitsValue(fs.hour) == d.hour
            && AllDigits(fs.minute) && DigitsValue(fs.minute) == d.minute
            && AllDigits(fs.second) && DigitsValue(fs.second) == d.second
            && AllDigits(fs.millisecond) && DigitsValue(fs.millisecond) == d.millisecond
  {
    assert Pow10(2) == 100 && Pow10(3) == 1000;
    PadValue(d.month, 2);
    PadValue(d.day, 2);
    PadValue(d.hour, 2);
    PadValue(d.minute, 2);
    PadValue(d.second, 2);
    PadValue(d.millisecond, 3);
  }

  /** Any time on 5 January 2024 in the format `YYYY-MM-DD` is `2024-01-05`. */
  lemma FormatIsoDateExample(d: LocalDate, format: string)
    requires d.year == 2024 && d.month == 1 && d.day == 5
    requires format == "YYYY-MM-DD"
    ensures FormatDateTime(d, format) == "2024-01-05"
  {
    var fs := FieldsOf(d);
    assert fs.year == "2024" by { ExampleYear(d.year); }
    assert fs.month == "01" && fs.day == "05" by { ExamplePads(d.month, d.day); }
    FormatIsoDate(fs, format);
    ExampleJoin(fs.year, fs.month, fs.day);
  }

  lemma ExampleJoin(y: string, m: string, d: string)
    requires y == "2024" && m == "01" && d == "05"
    ensures y + ("-" + (m + ("-" + d))) == "2024-01-05"
  {
  }

  /** The ISO date format substitutes the year, month and day texts around two hyphens. */
  lemma FormatIsoDate(fs: FieldTexts, format: string)
    requires format == "YYYY-MM-DD"
    ensures Substitute(fs, format) == fs.year + ("-" + (fs.month + ("-" + fs.day)))
  {
    var y, m, d := "YYYY", "MM", "DD";
    assert format == y + ("-" + (m + ("-" + d)));
    SubstituteTokens(fs, y, m, d);
  }

  /** The text is one whole token. */
  predicate IsToken(t: string) {
    t != [] && TokenLength(t) == |t|
  }

  /** A whole token becomes its field. */
  lemma SubstituteToken(fs: FieldTexts, t: string)
    requires IsToken(t)
    ensures Substitute(fs, t) == Field(fs, t[0])
  {
    assert t[|t|..] == [];
  }

  /** A whole token stays the token the scan finds, whatever follows it. */
  lemma TokenOfJoin(t: string, rest: string)
    requires IsToken(t)
    ensures TokenLength(t + rest) == |t|
  {
    var s := t + rest;
    assert forall i :: 0 <= i < |t| ==> s[i] == t[i];
  }

  /** A whole token followed by any text becomes its field followed by the rest, substituted. */
  lemma SubstituteTokenThen(fs: FieldTexts, t: string, rest: string)
    requires IsToken(t)
    ensures Substitute(fs, t + rest) == Field(fs, t[0]) + Substitute(fs, rest)
  {
    TokenOfJoin(t, rest);
    assert (t + rest)[|t|..] == rest;
  }

  /** A leading hyphen is copied. */
  lemma SubstituteHyphen(fs: FieldTexts, x: string)
    ensures Substitute(fs, "-" + x) == "-" + Substitute(fs, x)
  {
    assert ("-" + x)[1..] == x;
  }

  /** Three tokens separated by hyphens become their three fields separated by hyphens. */
  lemma SubstituteTokens(fs: FieldTexts, a: string, b: string, c: string)
    requires IsToken(a) && IsToken(b) && IsToken(c)
    ensures Substitute(fs, a + ("-" + (b + ("-" + c))))
         == Field(fs, a[0]) + ("-" + (Field(fs, b[0]) + ("-" + Field(fs, c[0]))))
  {
    SubstituteTokenThen(fs, a, "-" + (b + ("-" + c)));
    SubstituteHyphen(fs, b + ("-" + c));
    SubstituteTokenThen(fs, b, "-" + c);
    SubstituteHyphen(fs, c);
    SubstituteToken(fs, c);
  }

  /** The tokens are exactly the seven alternatives of `/YYYY|MM|DD|HH|mm|ss|SSS/`. */
  lemma TokenSet(t: string)
    ensures IsToken(t) <==> t == "YYYY" || t == "MM" || t == "DD" || t == "HH" || t == "mm" || t == "ss" || t == "SSS"
  {
    if IsToken(t) {
      assert forall i :: 0 <= i < |t| ==> t[i] == t[0];
    }
  }

  /** Each of the seven tokens on its own becomes the field of its letter. */
  lemma TokenFields(fs: FieldTexts)
    ensures Substitute(fs, "YYYY") == fs.year
    ensures Substitute(fs, "MM") == fs.month
    ensures Substitute(fs, "DD") == fs.day
    ensures Substitute(fs, "HH") == fs.hour
    ensures Substitute(fs, "mm") == fs.minute
    ensures Substitute(fs, "ss") == fs.second
    ensures Substitute(fs, "SSS") == fs.millisecond
  {
    var y, mo, d, h, mi, se, ms := "YYYY", "MM", "DD", "HH", "mm", "ss", "SSS";
    TokenSet(y);
    TokenSet(mo);
    TokenSet(d);
    TokenSet(h);
    TokenSet(mi);
    TokenSet(se);
    TokenSet(ms);
    SubstituteToken(fs, y);
    SubstituteToken(fs, mo);
    SubstituteToken(fs, d);
    SubstituteToken(fs, h);
    SubstituteToken(fs, mi);
    SubstituteToken(fs, se);
    SubstituteToken(fs, ms);
  }

  /**
    At the front of `f` the scan finds the token `f[..k]` when `k > 0`; when `k == 0`
    no token at all starts there.
  */
  lemma TokenAtFront(f: string)
    ensures var k := TokenLength(f);
            && (k > 0 ==> IsToken(f[..k]))
            && (k == 0 ==> forall n :: 0 < n <= |f| ==> !IsToken(f[..n]))
  {
    var k := TokenLength(f);
    if k > 0 {
      assert forall i :: 0 <= i < k ==> f[..k][i] == f[i];
    }
  }

  /** A character that is no token letter is copied, and the scan goes on after it. */
  lemma SubstituteSeparator(fs: FieldTexts, c: char, x: string)
    requires !IsTokenLetter(c)
    ensures Substitute(fs, [c] + x) == [c] + Substitute(fs, x)
  {
    assert ([c] + x)[1..] == x;
  }

  /** A whole token, a separator and the rest: the field, the separator, the rest substituted. */
  lemma TokenThenSeparator(fs: FieldTexts, t: string, c: char, rest: string)
    requires IsToken(t) && !IsTokenLetter(c)
    ensures Substitute(fs, t + ([c] + rest)) == Field(fs, t[0]) + ([c] + Substitute(fs, rest))
  {
    SubstituteTokenThen(fs, t, [c] + rest);
    SubstituteSeparator(fs, c, rest);
  }

  /** `HH:mm:ss.SSS` becomes the hour, minute, second and millisecond texts around `:`, `:` and `.`. */
  lemma FormatClock(fs: FieldTexts, format: string)
    requires format == "HH:mm:ss.SSS"
    ensures Substitute(fs, format) == fs.hour + (":" + (fs.minute + (":" + (fs.second + ("." + fs.millisecond)))))
  {
    var h, mi, se, ms := "HH", "mm", "ss", "SSS";
    TokenSet(h);
    TokenSet(mi);
    TokenSet(se);
    TokenSet(ms);
    assert format == h + ([':'] + (mi + ([':'] + (se + (['.'] + ms)))));
    TokenThenSeparator(fs, h, ':', mi + ([':'] + (se + (['.'] + ms))));
    TokenThenSeparator(fs, mi, ':', se + (['.'] + ms));
    TokenThenSeparator(fs, se, '.', ms);
    SubstituteToken(fs, ms);
  }

  /** Three whole tokens joined by two separators become their fields joined by the separators. */
  lemma ThreeTokens(fs: FieldTexts, a: string, c1: char, b: string, c2: char, c: string)
    requires IsToken(a) && IsToken(b) && IsToken(c) && !IsTokenLetter(c1) && !IsTokenLetter(c2)
    ensures Substitute(fs, a + ([c1] + (b + ([c2] + c))))
         == Field(fs, a[0]) + ([c1] + (Field(fs, b[0]) + ([c2] + Field(fs, c[0]))))
  {
    TokenThenSeparator(fs, a, c1, b + ([c2] + c));
    TokenThenSeparator(fs, b, c2, c);
    SubstituteToken(fs, c);
  }

  /** A date part, a separator and a time part are substituted part by part. */
  lemma TwoParts(fs: FieldTexts, date: string, c: char, time: string)
    requires date != [] && !IsTokenLetter(c)
    ensures Substitute(fs, date + ([c] + time)) == Substitute(fs, date) + ([c] + Substitute(fs, time))
  {
    FormatConcat(fs, date, [c] + time);
    SubstituteSeparator(fs, c, time);
  }

  /** `HH:mm:ss` becomes hour, minute and second joined by `:`. */
  lemma FormatClockSeconds(fs: FieldTexts, format: string)
    requires format == "HH:mm:ss"
    ensures Substitute(fs, format) == fs.hour + (":" + (fs.minute + (":" + fs.second)))
  {
    var h, mi, se := "HH", "mm", "ss";
    TokenSet(h);
    TokenSet(mi);
    TokenSet(se);
    assert format == h + ([':'] + (mi + ([':'] + se)));
    ThreeTokens(fs, h, ':', mi, ':', se);
  }

  /** The documented format `YYYY-MM-DD HH:mm:ss`, field by field. */
  lemma FormatDocumentedFields(fs: FieldTexts, format: string)
    requires format == "YYYY-MM-DD HH:mm:ss"
    ensures Substitute(fs, format)
         == fs.year + ("-" + (fs.month + ("-" + fs.day))) + (" " + (fs.hour + (":" + (fs.minute + (":" + fs.second)))))
  {
    var date, time := "YYYY-MM-DD", "HH:mm:ss";
    assert format == date + ([' '] + time);
    TwoParts(fs, date, ' ', time);
    FormatIsoDate(fs, date);
    FormatClockSeconds(fs, time);
  }

  /**
    The documented format `YYYY-MM-DD HH:mm:ss` gives `String(year)` and the two-digit
    month, day, hour, minute and second, with the separators copied.
  */
  lemma FormatDocumented(d: LocalDate, format: string)
    requires format == "YYYY-MM-DD HH:mm:ss"
    ensures FormatDateTime(d, format)
         == IntToString(d.year) + ("-" + (Pad(d.month, 2) + ("-" + Pad(d.day, 2)))) + (" " +
            (Pad(d.hour, 2) + (":" + (Pad(d.minute, 2) + (":" + Pad(d.second, 2))))))
  {
    FormatDocumentedFields(FieldsOf(d), format);
  }

  /** A non-empty run of fewer than four `Y` or fewer than three `S`, then another character, starts no token. */
  lemma RunStartsNoToken(c: char, r: string, rest: string)
    requires c == 'Y' || c == 'S'
    requires r != [] && forall i :: 0 <= i < |r| ==> r[i] == c
    requires |r| < (if c == 'Y' then 4 else 3)
    requires rest == [] || rest[0] != c
    ensures TokenLength(r + rest) == 0
  {
    var x := r + rest;
    assert x[0] == c;
    if |r| < |x| {
      assert x[|r|] == rest[0];
    }
    assert forall i :: 0 <= i < |r| ==> x[i] == c;
  }

  /** A character that starts no token is copied, and the scan goes on after it. */
  lemma CopyFront(fs: FieldTexts, a: char, x: string)
    requires TokenLength([a] + x) == 0
    ensures Substitute(fs, [a] + x) == [a] + Substitute(fs, x)
  {
    assert ([a] + x)[1..] == x;
  }

  /**
    A run of fewer than four `Y` or fewer than three `S` is no token: it is copied, and
    the scan goes on after it.
  */
  lemma {:induction false} RunCopied(fs: FieldTexts, c: char, n: nat, rest: string)
    requires c == 'Y' || c == 'S'
    requires n < (if c == 'Y' then 4 else 3)
    requires rest == [] || rest[0] != c
    ensures Substitute(fs, Repeat(c, n) + rest) == Repeat(c, n) + Substitute(fs, rest)
  {
    var r := Repeat(c, n);
    if n == 0 {
      assert r + rest == rest;
    } else {
      var t := Repeat(c, n - 1);
      RunStartsNoToken(c, r, rest);
      assert r + rest == [c] + (t + rest);
      CopyFront(fs, c, t + rest);
      RunCopied(fs, c, n - 1, rest);
      JoinAssoc([c], t, Substitute(fs, rest));
    }
  }

  /** Joining texts is associative. */
  lemma JoinAssoc(p: string, x: string, y: string)
    ensures p + (x + y) == (p + x) + y
  {
  }

  /** `Y`, `YY`, `YYY`, `S` and `SS` on their own are copied unchanged. */
  lemma NonTokenRuns(fs: FieldTexts)
    ensures Substitute(fs, "Y") == "Y" && Substitute(fs, "YY") == "YY" && Substitute(fs, "YYY") == "YYY"
    ensures Substitute(fs, "S") == "S" && Substitute(fs, "SS") == "SS"
  {
    var runs := ["Y", "YY", "YYY", "S", "SS"];
    forall r | r in runs ensures Substitute(fs, r) == r {
      assert r == Repeat(r[0], |r|);
      RunCopied(fs, r[0], |r|, []);
      assert r + [] == r;
    }
  }

  lemma ExampleYear(y: int)
    requires y == 2024
    ensures IntToString(y) == "2024"
  {
  }

  lemma ExamplePads(m: nat, d: nat)
    requires m == 1 && d == 5
    ensures Pad(m, 2) == "01" && Pad(d, 2) == "05"
  {
  }
}
