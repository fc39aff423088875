/**
  The expression handlers of the template engine and the dispatch that tries them in
  order. The stateless handlers are functions of the trimmed expression and of what
  the environment reports (`Date.now()`, `new Date()`, `Math.random()`); the two
  stateful ones are given here as functions from the old state to the new, which the
  `RenderState` methods in module `Engine` implement in place.
*/
module Handlers {
  import opened Wrappers
  import opened JsText
  import opened Ranges
  import opened DateFormat

  /** A `Math.random()` draw. */
  type Unit = r: real | 0.0 <= r < 1.0

  /**
    What the environment reports while one expression is resolved: `Date.now()` in
    milliseconds, the local fields of `new Date()`, and one `Math.random()` draw. Each
    handler reads at most one of them.
  */
  datatype Sample = Sample(nowMs: int, local: LocalDate, random: Unit)

  /** A replacement before it is turned into text: `String(n)`, `x.toFixed(digits)`, or text as it is. */
  datatype Value = IntV(n: int) | FixedV(x: real, digits: nat) | TextV(s: string)

  function Show(v: Value): string {
    match v
    case IntV(n) => IntToString(n)
    case FixedV(x, f) => ToFixed(x, f)
    case TextV(s) => s
  }

  const SecondsExpr := "当前时间戳-秒"
  const MillisecondsExpr := "当前时间戳-毫秒"
  const IntegerPrefix := "随机数 "
  const FloatPrefix := "随机浮点数 "
  const DatePrefix := "日期格式 "
  const AutoIdPrefix := "自增ID "
  const AccumulatorPrefix := "累计值 "

  /** `expression.substring(prefix.length).trim()`. */
  function ParamsAfter(e: string, prefix: string): (p: string)
    requires prefix <= e
    ensures Trimmed(p)
  {
    Trim(e[|prefix|..])
  }

  /**
    The parameter text is the slice of `e` after the keyword with the white space
    around it dropped, and nothing else dropped.
  */
  lemma ParamsAfterExact(e: string, prefix: string)
    requires prefix <= e
    ensures var p := ParamsAfter(e, prefix);
            var a := |e| - |TrimStart(e[|prefix|..])|;
            && |prefix| <= a && a + |p| <= |e| && p == e[a..a + |p|]
            && (forall i :: |prefix| <= i < a ==> IsSpace(e[i]))
            && (forall i :: a + |p| <= i < |e| ==> IsSpace(e[i]))
  {
    var rest := e[|prefix|..];
    TrimExact(rest);
    var a := |rest| - |TrimStart(rest)|;
    var p := ParamsAfter(e, prefix);
    assert p == rest[a..a + |p|];
    assert forall i :: |prefix| <= i < |e| ==> e[i] == rest[i - |prefix|];
  }

  function MinInt(a: int, b: int): int {
    if a <= b then a else b
  }

  function MaxInt(a: int, b: int): int {
    if a <= b then b else a
  }

  function MinReal(a: real, b: real): real {
    if a <= b then a else b
  }

  function MaxReal(a: real, b: real): real {
    if a <= b then b else a
  }

  // ---------------------------------------------------------------- _handleTimestamp

  /** The two timestamp expressions: whole seconds (rounded down) or milliseconds since the epoch. */
  function Timestamp(e: string, nowMs: int): (r: Option<Value>)
    ensures r.Some? <==> e == SecondsExpr || e == MillisecondsExpr
    ensures e == SecondsExpr ==> r.value.IntV? && r.value.n * 1000 <= nowMs < (r.value.n + 1) * 1000
    ensures e == MillisecondsExpr ==> r == Some(IntV(nowMs))
  {
    if e == SecondsExpr then Some(IntV(nowMs / 1000))
    else if e == MillisecondsExpr then Some(IntV(nowMs))
    else None
  }

  // ---------------------------------------------------------------- _handleRandomNumber

  /**
    The bounds of an integer range, smaller first: the groups of `^(-?\d+)-(-?\d+)$`
    read by `parseInt` and ordered by `Math.min` and `Math.max`.
  */
  function IntBounds(params: string): (r: Option<(int, int)>)
    ensures r.Some? <==> MatchIntRange(params).Some?
    ensures r.Some? ==> r.value.0 <= r.value.1
    ensures r.Some? ==> var (x, y) := MatchIntRange(params).value;
                        r.value == (MinInt(SignedIntValue(x), SignedIntValue(y)), MaxInt(SignedIntValue(x), SignedIntValue(y)))
  {
    match MatchIntRange(params)
    case None => None
    case Some((x, y)) =>
      ParseIntOfGroup(x);
      ParseIntOfGroup(y);
      var num1 := ParseInt(x);
      var num2 := ParseInt(y);
      if num1.Some? && num2.Some? then
        Some((MinInt(num1.value, num2.value), MaxInt(num1.value, num2.value)))
      else None
  }

  /** `Math.floor(u * (hi - lo + 1)) + lo`. */
  function DrawInt(lo: int, hi: int, u: Unit): (n: int)
    requires lo <= hi
    ensures lo <= n <= hi
  {
    var width := (hi - lo + 1) as real;
    assert u * width < width by {
      assert width - u * width == (1.0 - u) * width;
    }
    (u * width).Floor + lo
  }

  /** `lo + u * (hi - lo)`. */
  function DrawReal(lo: real, hi: real, u: Unit): (x: real)
    requires lo <= hi
    ensures lo <= x <= hi
  {
    var span := hi - lo;
    assert u * span <= span by {
      assert span - u * span == (1.0 - u) * span;
    }
    lo + u * span
  }

  /** The integer form `随机数 a-b`, on its trimmed parameter text. */
  function RandomInteger(params: string, u: Unit): (r: Option<Value>)
    ensures r.Some? <==> MatchIntRange(params).Some?
    ensures r.Some? ==> r.value.IntV? && IntBounds(params).value.0 <= r.value.n <= IntBounds(params).value.1
  {
    match IntBounds(params)
    case None => None
    case Some((lo, hi)) => Some(IntV(DrawInt(lo, hi, u)))
  }

  /**
    The bounds of a decimal range, smaller first: the groups of
    `^(-?\d*\.?\d+)-(-?\d*\.?\d+)$` read by `parseFloat` and ordered.
  */
  function DecimalBounds(text: string): (r: Option<(real, real)>)
    ensures r.Some? <==> MatchDecimalRange(text).Some?
    ensures r.Some? ==> r.value.0 <= r.value.1
    ensures r.Some? ==> var (x, y) := MatchDecimalRange(text).value;
                        r.value == (MinReal(SignedDecimalValue(x), SignedDecimalValue(y)), MaxReal(SignedDecimalValue(x), SignedDecimalValue(y)))
  {
    match MatchDecimalRange(text)
    case None => None
    case Some((x, y)) =>
      ParseFloatOfGroup(x);
      ParseFloatOfGroup(y);
      var num1 := ParseFloat(x);
      var num2 := ParseFloat(y);
      if num1.Some? && num2.Some? then Some((MinReal(num1.value, num2.value), MaxReal(num1.value, num2.value)))
      else None
  }

  /** `parts.length > 1 ? parseInt(parts[1], 10) : 2`, with `None` for `NaN`. */
  function Precision(parts: seq<string>): Option<int>
    requires |parts| >= 1
  {
    if |parts| > 1 then ParseInt(parts[1]) else Some(2)
  }

  /**
    The float form `随机浮点数 a-b [digits]`, on its trimmed parameter text. Only the
    first two white-space separated words are read. A missing precision is 2; a `NaN`
    or negative one rejects, and so does one above 100, for which `toFixed` throws a
    `RangeError` that the handler catches.
  */
  function RandomFloat(params: string, u: Unit): (r: Option<Value>)
    ensures var parts := SplitWs(params);
            r.Some? <==> Precision(parts).Some? && 0 <= Precision(parts).value <= 100 && MatchDecimalRange(parts[0]).Some?
    ensures var parts := SplitWs(params);
            r.Some? ==> && r.value.FixedV?
                        && Some(r.value.digits as int) == Precision(parts)
                        && DecimalBounds(parts[0]).value.0 <= r.value.x <= DecimalBounds(parts[0]).value.1
  {
    var parts := SplitWs(params);
    var precision := Precision(parts);
    if precision.None? || precision.value < 0 then None
    else
      match DecimalBounds(parts[0])
      case None => None
      case Some((lo, hi)) =>
        if precision.value > 100 then None
        else Some(FixedV(DrawReal(lo, hi, u), precision.value))
  }

  /** Without a precision word the float form shows two decimals. */
  lemma RandomFloatDefaultPrecision(range: string, u: Unit)
    requires NoSpace(range) && MatchDecimalRange(range).Some?
    ensures RandomFloat(range, u).Some? && RandomFloat(range, u).value.digits == 2
  {
    assert SplitWs(range) == [range];
    assert Precision([range]) == Some(2);
  }

  /**
    With a precision word the float form shows `parseInt` of that word, and rejects a
    `NaN` or a count outside 0 to 100.
  */
  lemma RandomFloatGivenPrecision(range: string, digits: string, u: Unit)
    requires NoSpace(range) && MatchDecimalRange(range).Some?
    requires NoSpace(digits)
    ensures var r := RandomFloat(range + " " + digits, u);
            && (r.Some? <==> ParseInt(digits).Some? && 0 <= ParseInt(digits).value <= 100)
            && (r.Some? ==> r.value.digits as int == ParseInt(digits).value)
  {
    var parts := [range, digits];
    SplitWsWord(range, digits);
    assert SplitWs(range + " " + digits) == parts;
    assert Precision(parts) == ParseInt(digits);
  }

  /** `0-1` is a decimal range without white space. */
  lemma ZeroToOneRange(range: string)
    requires range == "0-1"
    ensures NoSpace(range) && MatchDecimalRange(range).Some?
  {
    var zero, one := NatToString(0), NatToString(1);
    assert zero == "0" && one == "1";
    WholeDecimalText(0);
    WholeDecimalText(1);
    DecimalRangeExact(range, zero, one);
    assert range == zero + "-" + one;
  }

  /** `parseInt` reads the spelling of a natural number as that number. */
  lemma ParseIntOfDigits(t: string, n: nat)
    requires t == NatToString(n)
    ensures NoSpace(t) && ParseInt(t) == Some(n)
  {
    ParseIntOfSpelling(n);
    assert forall i :: 0 <= i < |t| ==> IsDigit(t[i]);
  }

  /** `随机浮点数 0-1` shows 2 decimals, `0-1 3` shows 3, and `0-1 101` is rejected. */
  lemma RandomFloatPrecisionExamples(range: string, three: string, hundredOne: string, u: Unit)
    requires range == "0-1" && three == "3" && hundredOne == "101"
    ensures RandomFloat(range, u).Some? && RandomFloat(range, u).value.digits == 2
    ensures RandomFloat(range + " " + three, u).Some? && RandomFloat(range + " " + three, u).value.digits == 3
    ensures RandomFloat(range + " " + hundredOne, u).None?
  {
    ZeroToOneRange(range);
    assert NatToString(3) == three && NatToString(101) == hundredOne;
    ParseIntOfDigits(three, 3);
    ParseIntOfDigits(hundredOne, 101);
    RandomFloatDefaultPrecision(range, u);
    RandomFloatGivenPrecision(range, three, u);
    RandomFloatGivenPrecision(range, hundredOne, u);
  }

  /** `_handleRandomNumber`: the integer form, else the float form, by their keyword prefixes. */
  function RandomNumber(e: string, u: Unit): (r: Option<Value>)
    ensures IntegerPrefix <= e ==> r == RandomInteger(ParamsAfter(e, IntegerPrefix), u)
    ensures !(IntegerPrefix <= e) && FloatPrefix <= e ==> r == RandomFloat(ParamsAfter(e, FloatPrefix), u)
    ensures !(IntegerPrefix <= e) && !(FloatPrefix <= e) ==> r.None?
  {
    if IntegerPrefix <= e then RandomInteger(ParamsAfter(e, IntegerPrefix), u)
    else if FloatPrefix <= e then RandomFloat(ParamsAfter(e, FloatPrefix), u)
    else None
  }

  /** Whichever order the bounds are written in, the integer form draws the same number. */
  lemma RandomIntegerSymmetric(x: string, y: string, u: Unit)
    requires IsSignedIntText(x) && IsSignedIntText(y)
    ensures RandomInteger(x + "-" + y, u) == RandomInteger(y + "-" + x, u)
    ensures RandomInteger(x + "-" + y, u).Some?
  {
    var vx, vy := SignedIntValue(x), SignedIntValue(y);
    IntRangeExact(x + "-" + y, x, y);
    IntRangeExact(y + "-" + x, y, x);
    assert IntBounds(x + "-" + y) == Some((MinInt(vx, vy), MaxInt(vx, vy)));
    assert IntBounds(y + "-" + x) == Some((MinInt(vy, vx), MaxInt(vy, vx)));
  }

  // ---------------------------------------------------------------- _handleDateFormat

  /** `日期格式 format`: the current local date and time in a non-empty format. */
  function DateFormatExpr(e: string, d: LocalDate): (r: Option<Value>)
    ensures r.Some? <==> DatePrefix <= e && ParamsAfter(e, DatePrefix) != []
    ensures r.Some? ==> r.value == TextV(FormatDateTime(d, ParamsAfter(e, DatePrefix)))
  {
    if DatePrefix <= e && ParamsAfter(e, DatePrefix) != [] then
      Some(TextV(FormatDateTime(d, ParamsAfter(e, DatePrefix))))
    else None
  }

  /** `日期格式 YYYY-MM-DD` renders the year, the padded month and the padded day, joined by `-`. */
  lemma DateFormatIsoExample(e: string, format: string, d: LocalDate)
    requires format == "YYYY-MM-DD" && e == DatePrefix + format
    ensures DateFormatExpr(e, d) == Some(TextV(IntToString(d.year) + ("-" + (Pad(d.month, 2) + ("-" + Pad(d.day, 2))))))
  {
    assert e[|DatePrefix|..] == format;
    assert Trimmed(format);
    FormatIsoDate(FieldsOf(d), format);
  }

  // ---------------------------------------------------------------- _handleAutoIncrementId

  /** The sequence an auto-increment expression names, and the per-call cache key. */
  datatype AutoIdRequest = AutoIdRequest(key: string, start: int, step: int)

  /** `parseInt(text, 10) || 1`: `NaN` and zero both become 1. */
  function OrOne(p: Option<int>): (n: int)
    ensures n != 0
    ensures p.Some? && p.value != 0 ==> n == p.value
    ensures p.None? || p.value == 0 ==> n == 1
  {
    if p.None? || p.value == 0 then 1 else p.value
  }

  /**
    `自增ID key [start] [step]`: the key is the first word and must be present; a
    missing, unreadable or zero start or step is 1; words after the third are ignored.
  */
  function ParseAutoIncrement(e: string): (r: Option<AutoIdRequest>)
    ensures r.Some? <==> AutoIdPrefix <= e && ParamsAfter(e, AutoIdPrefix) != []
    ensures r.Some? ==> r.value.key != [] && NoSpace(r.value.key) && r.value.start != 0 && r.value.step != 0
    ensures r.Some? ==> var parts := SplitWs(ParamsAfter(e, AutoIdPrefix));
                        && r.value.key == parts[0]
                        && (WordInt(parts, 1) in {None, Some(0)} ==> r.value.start == 1)
                        && (WordInt(parts, 1).Some? && WordInt(parts, 1).value != 0 ==> r.value.start == WordInt(parts, 1).value)
                        && (WordInt(parts, 2) in {None, Some(0)} ==> r.value.step == 1)
                        && (WordInt(parts, 2).Some? && WordInt(parts, 2).value != 0 ==> r.value.step == WordInt(parts, 2).value)
  {
    if !(AutoIdPrefix <= e) then None
    else
      var parts := SplitWs(ParamsAfter(e, AutoIdPrefix));
      var key := parts[0];
      if key == [] then None
      else Some(AutoIdRequest(key, OrOne(WordInt(parts, 1)), OrOne(WordInt(parts, 2))))
  }

  /** `parseInt(parts[i], 10)`, which is `NaN` for a missing word. */
  function WordInt(parts: seq<string>, i: nat): Option<int> {
    if |parts| > i then ParseInt(parts[i]) else None
  }

  /** `自增ID key` alone is the sequence of `key` from 1 in steps of 1. */
  lemma ParseAutoIncrementKeyOnly(key: string)
    requires key != [] && NoSpace(key)
    ensures ParseAutoIncrement(AutoIdPrefix + key) == Some(AutoIdRequest(key, 1, 1))
  {
    var e := AutoIdPrefix + key;
    assert e[|AutoIdPrefix|..] == key;
    assert Trimmed(key);
  }

  /**
    A start or step `parseInt` reads as `NaN` or as 0 falls back to 1, as in
    `自增ID key 0 0` or `自增ID key abc 0`.
  */
  lemma ParseAutoIncrementDefaults(key: string, a: string, b: string)
    requires key != [] && NoSpace(key) && a != [] && NoSpace(a) && b != [] && NoSpace(b)
    requires ParseInt(a).None? || ParseInt(a) == Some(0)
    requires ParseInt(b).None? || ParseInt(b) == Some(0)
    ensures ParseAutoIncrement(AutoIdPrefix + (key + " " + (a + " " + b))) == Some(AutoIdRequest(key, 1, 1))
  {
    AutoIdTextParams(AutoIdPrefix + (key + " " + (a + " " + b)), key, a, b);
  }

  /** `自增ID key 0 0` and `自增ID key abc 0` both name the sequence of `key` from 1 in steps of 1. */
  lemma ParseAutoIncrementZeroAndLetters(key: string, zero: string, abc: string)
    requires key != [] && NoSpace(key) && zero == "0" && abc == "abc"
    ensures ParseAutoIncrement(AutoIdPrefix + (key + " " + (zero + " " + zero))) == Some(AutoIdRequest(key, 1, 1))
    ensures ParseAutoIncrement(AutoIdPrefix + (key + " " + (abc + " " + zero))) == Some(AutoIdRequest(key, 1, 1))
  {
    assert IntToString(0) == zero;
    ParseIntOfSpelling(0);
    ParseIntWithoutDigits(abc);
    assert NoSpace(zero) && NoSpace(abc);
    ParseAutoIncrementDefaults(key, zero, zero);
    ParseAutoIncrementDefaults(key, abc, zero);
  }

  /** An auto-increment expression that spells out the key, the start and the step. */
  function AutoIdText(req: AutoIdRequest): string {
    AutoIdPrefix + (req.key + " " + (IntToString(req.start) + " " + IntToString(req.step)))
  }

  /** Every request the parser can produce is read back from its spelled-out expression. */
  lemma ParseAutoIncrementOf(req: AutoIdRequest)
    requires req.key != [] && NoSpace(req.key) && req.start != 0 && req.step != 0
    ensures ParseAutoIncrement(AutoIdText(req)) == Some(req)
  {
    var a, b := IntToString(req.start), IntToString(req.step);
    IntToStringNoSpace(req.start);
    IntToStringNoSpace(req.step);
    AutoIdTextParams(AutoIdText(req), req.key, a, b);
    ParseIntOfSpelling(req.start);
    ParseIntOfSpelling(req.step);
  }

  lemma AutoIdTextParams(e: string, key: string, a: string, b: string)
    requires e == AutoIdPrefix + (key + " " + (a + " " + b))
    requires key != [] && NoSpace(key) && a != [] && NoSpace(a) && b != [] && NoSpace(b)
    ensures AutoIdPrefix <= e && SplitWs(ParamsAfter(e, AutoIdPrefix)) == [key, a, b]
  {
    var params := key + " " + (a + " " + b);
    assert e[|AutoIdPrefix|..] == params;
    assert params[0] == key[0] && params[|params| - 1] == b[|b| - 1];
    assert Trim(params) == params;
    SplitWords(key, a, b);
  }

  lemma SplitWords(key: string, a: string, b: string)
    requires key != [] && NoSpace(key) && a != [] && NoSpace(a) && b != [] && NoSpace(b)
    ensures SplitWs(key + " " + (a + " " + b)) == [key, a, b]
  {
    SplitWsWord(a, b);
    SplitWsWord(key, a + " " + b);
  }

  /** The stored state of one sequence (`context.autoIncrementCounters[key]`). */
  datatype Counter = Counter(currentValue: int, stepUsedForCurrent: int, initialStartOfSequence: int)

  type Counters = map<string, Counter>

  /** The per-call cache: the id each request was given during the current render. */
  type AutoIdCache = map<AutoIdRequest, int>

  /**
    The counter transition on a cache miss. An unseen key, or one whose sequence began
    at another start, restarts at `start`; otherwise the id advances by the step stored
    with the previous id. Either way the stored step becomes this expression's.
  */
  function NextId(req: AutoIdRequest, counters: Counters): (r: (int, Counter))
    ensures r.1 == Counter(r.0, req.step, req.start)
    ensures req.key !in counters || counters[req.key].initialStartOfSequence != req.start ==> r.0 == req.start
    ensures req.key in counters && counters[req.key].initialStartOfSequence == req.start
            ==> r.0 == counters[req.key].currentValue + counters[req.key].stepUsedForCurrent
  {
    if req.key !in counters || counters[req.key].initialStartOfSequence != req.start then
      (req.start, Counter(req.start, req.step, req.start))
    else
      var id := counters[req.key].currentValue + counters[req.key].stepUsedForCurrent;
      (id, Counter(id, req.step, req.start))
  }

  datatype AutoIdOutcome = AutoIdOutcome(id: int, counters: Counters, cache: AutoIdCache)

  /**
    One auto-increment resolution: a request already in the per-call cache gets its
    cached id and changes nothing; otherwise the counter takes one step and the id is
    cached.
  */
  function AutoIncrement(req: AutoIdRequest, counters: Counters, cache: AutoIdCache): (r: AutoIdOutcome)
    ensures req in r.cache && r.cache[req] == r.id
    ensures cache.Keys <= r.cache.Keys && forall q :: q in cache ==> r.cache[q] == cache[q]
    ensures counters.Keys <= r.counters.Keys
    ensures forall k :: k in counters && k != req.key ==> r.counters[k] == counters[k]
    ensures req !in cache ==> req.key in r.counters && r.counters[req.key] == Counter(r.id, req.step, req.start)
    ensures req in cache ==> r == AutoIdOutcome(cache[req], counters, cache)
    ensures req !in cache ==> r.id == NextId(req, counters).0 && r.cache == cache[req := r.id]
  {
    if req in cache then AutoIdOutcome(cache[req], counters, cache)
    else
      var (id, c) := NextId(req, counters);
      AutoIdOutcome(id, counters[req.key := c], cache[req := id])
  }

  /** A repeated request in the same render gets the same id and advances nothing. */
  lemma AutoIncrementIdempotent(req: AutoIdRequest, counters: Counters, cache: AutoIdCache)
    ensures var o := AutoIncrement(req, counters, cache);
            AutoIncrement(req, o.counters, o.cache) == o
  {
  }

  /** The counters after `n` renders that each resolve `req` once, from `counters`. */
  function AfterRenders(req: AutoIdRequest, counters: Counters, n: nat): Counters
  {
    if n == 0 then counters else AutoIncrement(req, AfterRenders(req, counters, n - 1), map[]).counters
  }

  /**
    Across renders a sequence advances by its step once per render: from a key that is
    unseen (or began at another start), the n-th render yields start + (n-1) * step.
  */
  lemma {:induction false} AutoIncrementAcrossRenders(req: AutoIdRequest, counters: Counters, n: nat)
    requires req.key !in counters || counters[req.key].initialStartOfSequence != req.start
    ensures AutoIncrement(req, AfterRenders(req, counters, n), map[]).id == req.start + n * req.step
    ensures n > 0 ==> AfterRenders(req, counters, n)[req.key] == Counter(req.start + (n - 1) * req.step, req.step, req.start)
  {
    if n > 0 {
      AutoIncrementAcrossRenders(req, counters, n - 1);
      assert (n - 1) * req.step + req.step == n * req.step;
    }
  }

  /**
    A changed step takes effect one render late: the advance right after the change
    still uses the step stored with the previous id, and the one after uses the new step.
  */
  lemma AutoIncrementStepChange(key: string, start: int, v: int, oldStep: int, newStep: int, counters: Counters)
    requires key in counters && counters[key] == Counter(v, oldStep, start)
    ensures var req := AutoIdRequest(key, start, newStep);
            var first := AutoIncrement(req, counters, map[]);
            var second := AutoIncrement(req, first.counters, map[]);
            first.id == v + oldStep && second.id == v + oldStep + newStep
  {
  }

  /**
    `[自增ID x 10 5] [自增ID x 10 5]` gives `10 10`, the next render of `[自增ID x 10 5]`
    gives `15`, and a later `[自增ID x 20 1]` restarts at `20`.
  */
  lemma AutoIncrementScenario(a: AutoIdRequest, b: AutoIdRequest)
    requires a == AutoIdRequest("x", 10, 5) && b == AutoIdRequest("x", 20, 1)
    ensures var first := AutoIncrement(a, map[], map[]);
            var repeat := AutoIncrement(a, first.counters, first.cache);
            var next := AutoIncrement(a, repeat.counters, map[]);
            var restart := AutoIncrement(b, next.counters, map[]);
            first.id == 10 && repeat.id == 10 && next.id == 15 && restart.id == 20
  {
    AutoIncrementIdempotent(a, map[], map[]);
  }

  // ---------------------------------------------------------------- _handleAccumulatedValue

  /** The triple a running total is stored under (`${start}_${min}_${max}` in the source). */
  datatype AccumulatorKey = AccumulatorKey(start: real, minStep: real, maxStep: real)

  type Accumulators = map<AccumulatorKey, real>

  /**
    `累计值 start min-max`: exactly two parameters, a start `parseFloat` can read, and a
    decimal range; the bounds are ordered.
  */
  function ParseAccumulator(e: string): (r: Option<AccumulatorKey>)
    ensures r.Some? <==> AccumulatorPrefix <= e && AccumulatorAccepts(SplitWs(ParamsAfter(e, AccumulatorPrefix)))
    ensures r.Some? ==> r.value.minStep <= r.value.maxStep
    ensures r.Some? ==> var parts := SplitWs(ParamsAfter(e, AccumulatorPrefix));
                        var (x, y) := MatchDecimalRange(parts[1]).value;
                        && r.value.start == ParseFloat(parts[0]).value
                        && r.value.minStep == MinReal(SignedDecimalValue(x), SignedDecimalValue(y))
                        && r.value.maxStep == MaxReal(SignedDecimalValue(x), SignedDecimalValue(y))
  {
    if !(AccumulatorPrefix <= e) then None
    else
      var parts := SplitWs(ParamsAfter(e, AccumulatorPrefix));
      if |parts| != 2 then None
      else
        match ParseFloat(parts[0])
        case None => None
        case Some(start) =>
          match DecimalBounds(parts[1])
          case None => None
          case Some((lo, hi)) => Some(AccumulatorKey(start, lo, hi))
  }

  /** Two words: a start `parseFloat` reads as a number, then a decimal range. */
  predicate AccumulatorAccepts(parts: seq<string>) {
    |parts| == 2 && ParseFloat(parts[0]).Some? && MatchDecimalRange(parts[1]).Some?
  }

  /** Every character of a signed decimal is a digit, a minus sign or a point. */
  lemma DecimalTextChars(t: string)
    requires IsSignedDecimalText(t)
    ensures t != [] && NoSpace(t) && !IsSpace(t[0]) && !IsSpace(t[|t| - 1])
  {
    var b := Body(t);
    var whole := DigitPrefix(b);
    var rest := b[|whole|..];
    forall i | 0 <= i < |b| ensures IsDigit(b[i]) || b[i] == '.' {
      if i < |whole| {
        assert b[i] == whole[i];
      } else if i > |whole| {
        assert b[i] == rest[1..][i - |whole| - 1];
      }
    }
    forall i | 0 <= i < |t| ensures !IsSpace(t[i]) {
      if b != t && i > 0 {
        assert t[i] == b[i - 1];
      }
    }
  }

  /** A range `x-y` of two signed decimals is one word with no white space at either end. */
  lemma RangeTextWord(x: string, y: string)
    requires IsSignedDecimalText(x) && IsSignedDecimalText(y)
    ensures var range := x + "-" + y; NoSpace(range) && !IsSpace(range[0]) && !IsSpace(range[|range| - 1])
  {
    DecimalTextChars(x);
    DecimalTextChars(y);
    var range := x + "-" + y;
    NoSpaceConcat(x, "-");
    NoSpaceConcat(x + "-", y);
    assert range[0] == x[0];
    assert range[|range| - 1] == y[|y| - 1];
  }

  lemma NoSpaceConcat(a: string, b: string)
    requires NoSpace(a) && NoSpace(b)
    ensures NoSpace(a + b)
  {
    forall i | 0 <= i < |a + b| ensures !IsSpace((a + b)[i]) {
      if i >= |a| {
        assert (a + b)[i] == b[i - |a|];
      }
    }
  }

  /** `累计值 start range` splits into the two words `start` and `range`. */
  lemma AccumulatorTextParams(e: string, start: string, range: string)
    requires e == AccumulatorPrefix + (start + " " + range)
    requires start != [] && NoSpace(start) && range != [] && NoSpace(range)
    ensures AccumulatorPrefix <= e && SplitWs(ParamsAfter(e, AccumulatorPrefix)) == [start, range]
  {
    var params := start + " " + range;
    assert e[|AccumulatorPrefix|..] == params;
    assert params[0] == start[0] && params[|params| - 1] == range[|range| - 1];
    assert Trimmed(params);
    SplitWsWord(start, range);
  }

  /**
    An accumulator expression that spells out its start and its range is read back
    as the start's value and the range's values, smaller first.
  */
  lemma ParseAccumulatorOf(start: string, x: string, y: string)
    requires IsSignedDecimalText(start) && IsSignedDecimalText(x) && IsSignedDecimalText(y)
    ensures ParseAccumulator(AccumulatorPrefix + (start + " " + (x + "-" + y)))
         == Some(AccumulatorKey(SignedDecimalValue(start), MinReal(SignedDecimalValue(x), SignedDecimalValue(y)),
                                MaxReal(SignedDecimalValue(x), SignedDecimalValue(y))))
  {
    var range := x + "-" + y;
    DecimalTextChars(start);
    RangeTextWord(x, y);
    AccumulatorTextParams(AccumulatorPrefix + (start + " " + range), start, range);
    ParseFloatOfGroup(start);
    DecimalRangeExact(range, x, y);
  }

  /** The running total of `k` before its next step: the stored one, or the start when unseen. */
  function TotalOf(k: AccumulatorKey, accs: Accumulators): real {
    if k in accs then accs[k] else k.start
  }

  /** One accumulator resolution: a step drawn from [min, max] is added to the running total. */
  function Accumulate(k: AccumulatorKey, accs: Accumulators, u: Unit): (r: (real, Accumulators))
    requires k.minStep <= k.maxStep
    ensures TotalOf(k, accs) + k.minStep <= r.0 <= TotalOf(k, accs) + k.maxStep
    ensures r.1 == accs[k := r.0]
  {
    var total := TotalOf(k, accs) + DrawReal(k.minStep, k.maxStep, u);
    (total, accs[k := total])
  }

  /** The running totals after resolving `k` once per draw, in order. */
  function AccumulateAll(k: AccumulatorKey, accs: Accumulators, draws: seq<Unit>): Accumulators
    requires k.minStep <= k.maxStep
    decreases |draws|
  {
    if draws == [] then accs else AccumulateAll(k, Accumulate(k, accs, draws[0]).1, draws[1..])
  }

  /** `n` steps of `x`, added one at a time. */
  function Steps(n: nat, x: real): real {
    if n == 0 then 0.0 else Steps(n - 1, x) + x
  }

  /** `n` steps of `x` come to `n * x`. */
  lemma {:induction false} SumOfSteps(n: nat, x: real)
    ensures Steps(n, x) == n as real * x
  {
    if n > 0 {
      SumOfSteps(n - 1, x);
      assert n as real * x == (n - 1) as real * x + x;
    }
  }

  /**
    After n resolutions of the same accumulator expression the total lies between
    total + n steps of min and total + n steps of max, where total is the one before
    them; the key is then present.
  */
  lemma {:induction false} AccumulatedBounds(k: AccumulatorKey, accs: Accumulators, draws: seq<Unit>)
    requires k.minStep <= k.maxStep
    ensures var after := AccumulateAll(k, accs, draws);
            k in after || draws == []
    ensures var n := |draws|;
            var after := AccumulateAll(k, accs, draws);
            TotalOf(k, accs) + Steps(n, k.minStep) <= TotalOf(k, after) <= TotalOf(k, accs) + Steps(n, k.maxStep)
    decreases |draws|
  {
    if draws != [] {
      var next := Accumulate(k, accs, draws[0]).1;
      AccumulatedBounds(k, next, draws[1..]);
      assert AccumulateAll(k, accs, draws) == AccumulateAll(k, next, draws[1..]);
      assert |draws| - 1 == |draws[1..]|;
    }
  }

  /** `累计值 100 1-1` starts at 100 and adds exactly 1 each time. */
  lemma ParseAccumulatorExample(e: string, hundred: string, one: string)
    requires hundred == "100" && one == "1"
    requires e == AccumulatorPrefix + (hundred + " " + (one + "-" + one))
    ensures ParseAccumulator(e) == Some(AccumulatorKey(100.0, 1.0, 1.0))
  {
    assert NatToString(100) == hundred;
    assert NatToString(1) == one;
    WholeDecimalText(100);
    WholeDecimalText(1);
    ParseAccumulatorOf(hundred, one, one);
  }

  /** `累计值 1e3 1-2` is accepted and starts at 1000: the start is read by `parseFloat`, exponent included. */
  lemma ParseAccumulatorExponentStart(e: string, start: string, one: string, two: string)
    requires start == "1e3" && one == "1" && two == "2"
    requires e == AccumulatorPrefix + (start + " " + (one + "-" + two))
    ensures ParseAccumulator(e).Some? && ParseAccumulator(e).value.start == 1000.0
  {
    var range := one + "-" + two;
    assert NatToString(1) == one && NatToString(2) == two;
    WholeDecimalText(1);
    WholeDecimalText(2);
    RangeTextWord(one, two);
    assert NoSpace(start) by {
      assert start[0] == '1' && start[1] == 'e' && start[2] == '3';
    }
    AccumulatorTextParams(e, start, range);
    DecimalRangeExact(range, one, two);
    ParseFloatExponentExample(start);
  }

  /**
    `[累计值 100 1-1] [累计值 100 1-1]` against a fresh state gives `101.00 102.00`:
    each occurrence adds the step, and the total is shown with two decimals.
  */
  lemma AccumulatorScenario(e: string, hundred: string, one: string, u1: Unit, u2: Unit)
    requires hundred == "100" && one == "1"
    requires e == AccumulatorPrefix + (hundred + " " + (one + "-" + one))
    ensures ParseAccumulator(e).Some?
    ensures var k := ParseAccumulator(e).value;
            var first := Accumulate(k, map[], u1);
            var second := Accumulate(k, first.1, u2);
            ToFixed(first.0, 2) == "101.00" && ToFixed(second.0, 2) == "102.00"
  {
    ParseAccumulatorExample(e, hundred, one);
    AccumulatorTotals(ParseAccumulator(e).value, u1, u2);
  }

  /** Two steps of exactly 1 from 100 show as `101.00` and `102.00`. */
  lemma AccumulatorTotals(k: AccumulatorKey, u1: Unit, u2: Unit)
    requires k == AccumulatorKey(100.0, 1.0, 1.0)
    ensures var first := Accumulate(k, map[], u1);
            var second := Accumulate(k, first.1, u2);
            ToFixed(first.0, 2) == "101.00" && ToFixed(second.0, 2) == "102.00"
  {
    var first := Accumulate(k, map[], u1);
    var second := Accumulate(k, first.1, u2);
    assert first.0 == 101.0 && second.0 == 102.0;
    ShowTotal(first.0, 101, "101", "101.00");
    ShowTotal(second.0, 102, "102", "102.00");
  }

  /** A whole total `m` with the digits `digits` is shown as `text`. */
  lemma ShowTotal(x: real, m: nat, digits: string, text: string)
    requires x == m as real && m >= 1 && NatToString(m) == digits && text == digits + ".00"
    ensures ToFixed(x, 2) == text
  {
    ToFixedWhole(m);
  }

  // ---------------------------------------------------------------- dispatch

  /** The handlers that do not touch the state accept `e` (whatever the environment reports). */
  predicate StatelessAccepts(e: string) {
    || e == SecondsExpr || e == MillisecondsExpr
    || (IntegerPrefix <= e && MatchIntRange(ParamsAfter(e, IntegerPrefix)).Some?)
    || (!(IntegerPrefix <= e) && FloatPrefix <= e && RandomFloat(ParamsAfter(e, FloatPrefix), 0.0).Some?)
    || (DatePrefix <= e && ParamsAfter(e, DatePrefix) != [])
  }

  /** Some handler accepts the trimmed expression `e`. */
  predicate Recognised(e: string) {
    StatelessAccepts(e) || ParseAutoIncrement(e).Some? || ParseAccumulator(e).Some?
  }

  datatype Resolution = Resolution(value: Option<Value>, counters: Counters, accumulators: Accumulators, cache: AutoIdCache)

  /** The first of the timestamp, random-number and date-format handlers that accepts `e`. */
  function ResolveStateless(e: string, s: Sample): (r: Option<Value>)
  {
    var timestamp := Timestamp(e, s.nowMs);
    if timestamp.Some? then timestamp
    else
      var random := RandomNumber(e, s.random);
      if random.Some? then random
      else DateFormatExpr(e, s.local)
  }

  /**
    The callback `processTemplate` runs on one match: trim the inner text, try the
    handlers in order (timestamp, random number, date format, auto-increment,
    accumulator) and keep the first result. A declined expression changes nothing;
    only an auto-increment expression touches the counters and the cache, only an
    accumulator expression the running totals, and no entry is ever removed.
  */
  function Resolve(raw: string, s: Sample, counters: Counters, accs: Accumulators, cache: AutoIdCache): (r: Resolution)
  {
    var e := Trim(raw);
    var plain := ResolveStateless(e, s);
    if plain.Some? then Resolution(plain, counters, accs, cache)
    else ResolveStateful(e, s.random, counters, accs, cache)
  }

  /** The stateless handlers together accept exactly the expressions `StatelessAccepts` names. */
  lemma ResolveStatelessAccepts(e: string, s: Sample)
    ensures ResolveStateless(e, s).Some? <==> StatelessAccepts(e)
  {
  }

  /**
    `Resolve` produces a value exactly for a recognised expression. A declined
    expression changes nothing; only an auto-increment expression touches the counters
    and the cache, only an accumulator expression the running totals, and no entry is
    ever removed or, in the cache, overwritten.
  */
  lemma ResolveContract(raw: string, s: Sample, counters: Counters, accs: Accumulators, cache: AutoIdCache)
    ensures var r := Resolve(raw, s, counters, accs, cache);
            && (r.value.Some? <==> Recognised(Trim(raw)))
            && (r.value.None? ==> r.counters == counters && r.accumulators == accs && r.cache == cache)
            && ((r.counters != counters || r.cache != cache) ==> ParseAutoIncrement(Trim(raw)).Some?)
            && (r.accumulators != accs ==> ParseAccumulator(Trim(raw)).Some?)
            && counters.Keys <= r.counters.Keys && accs.Keys <= r.accumulators.Keys
            && cache.Keys <= r.cache.Keys && forall q :: q in cache ==> r.cache[q] == cache[q]
  {
    var e := Trim(raw);
    ResolveStatelessAccepts(e, s);
    if ResolveStateless(e, s).None? {
      ResolveStatefulContract(e, s.random, counters, accs, cache);
    }
  }

  /** The stateful handlers: a value exactly when one accepts, and each touches only its own state. */
  lemma ResolveStatefulContract(e: string, u: Unit, counters: Counters, accs: Accumulators, cache: AutoIdCache)
    ensures var r := ResolveStateful(e, u, counters, accs, cache);
            && (r.value.Some? <==> ParseAutoIncrement(e).Some? || ParseAccumulator(e).Some?)
            && (r.value.None? ==> r.counters == counters && r.accumulators == accs && r.cache == cache)
            && ((r.counters != counters || r.cache != cache) ==> ParseAutoIncrement(e).Some?)
            && (r.accumulators != accs ==> ParseAccumulator(e).Some?)
            && counters.Keys <= r.counters.Keys && accs.Keys <= r.accumulators.Keys
            && cache.Keys <= r.cache.Keys && forall q :: q in cache ==> r.cache[q] == cache[q]
  {
  }

  /** The two stateful handlers, auto-increment first, on an expression the others declined. */
  function ResolveStateful(e: string, u: Unit, counters: Counters, accs: Accumulators, cache: AutoIdCache): (r: Resolution)
  {
    match ParseAutoIncrement(e)
    case Some(req) =>
      var o := AutoIncrement(req, counters, cache);
      Resolution(Some(IntV(o.id)), o.counters, accs, o.cache)
    case None =>
      match ParseAccumulator(e)
      case Some(k) =>
        var (total, next) := Accumulate(k, accs, u);
        Resolution(Some(FixedV(total, 2)), counters, next, cache)
      case None => Resolution(None, counters, accs, cache)
  }

  /**
    The keyword prefixes are pairwise distinct at their first or third character, so at
    most one handler accepts any expression and the order in which they are tried
    never decides the result.
  */
  lemma HandlersExclusive(e: string, s: Sample)
    ensures Timestamp(e, s.nowMs).Some? ==>
              && RandomNumber(e, s.random).None? && DateFormatExpr(e, s.local).None?
              && ParseAutoIncrement(e).None? && ParseAccumulator(e).None?
    ensures RandomNumber(e, s.random).Some? ==>
              DateFormatExpr(e, s.local).None? && ParseAutoIncrement(e).None? && ParseAccumulator(e).None?
    ensures DateFormatExpr(e, s.local).Some? ==> ParseAutoIncrement(e).None? && ParseAccumulator(e).None?
    ensures ParseAutoIncrement(e).Some? ==> ParseAccumulator(e).None?
  {
    assert SecondsExpr[0] == MillisecondsExpr[0] == '当';
    assert IntegerPrefix[0] == FloatPrefix[0] == '随';
    assert IntegerPrefix[2] == '数' && FloatPrefix[2] == '浮';
    assert DatePrefix[0] == '日' && AutoIdPrefix[0] == '自' && AccumulatorPrefix[0] == '累';
  }

  /** An auto-increment expression is resolved by the auto-increment step alone. */
  lemma ResolveAutoIncrementExpr(raw: string, s: Sample, counters: Counters, accs: Accumulators, cache: AutoIdCache)
    requires ParseAutoIncrement(Trim(raw)).Some?
    ensures var o := AutoIncrement(ParseAutoIncrement(Trim(raw)).value, counters, cache);
            Resolve(raw, s, counters, accs, cache) == Resolution(Some(IntV(o.id)), o.counters, accs, o.cache)
  {
    HandlersExclusive(Trim(raw), s);
  }

  /** An expression a stateless handler accepts is resolved without touching the context. */
  lemma ResolvePlainExpr(raw: string, s: Sample, counters: Counters, accs: Accumulators, cache: AutoIdCache)
    requires ResolveStateless(Trim(raw), s).Some?
    ensures Resolve(raw, s, counters, accs, cache) == Resolution(ResolveStateless(Trim(raw), s), counters, accs, cache)
  {
  }

  /** An expression no handler accepts resolves to nothing and changes nothing. */
  lemma ResolveDeclinedExpr(raw: string, s: Sample, counters: Counters, accs: Accumulators, cache: AutoIdCache)
    requires ResolveStateless(Trim(raw), s).None?
    requires ParseAutoIncrement(Trim(raw)).None? && ParseAccumulator(Trim(raw)).None?
    ensures Resolve(raw, s, counters, accs, cache) == Resolution(None, counters, accs, cache)
  {
  }

  /** An accumulator expression is resolved by the accumulator step alone. */
  lemma ResolveAccumulatorExpr(raw: string, s: Sample, counters: Counters, accs: Accumulators, cache: AutoIdCache)
    requires ParseAccumulator(Trim(raw)).Some?
    ensures var k := ParseAccumulator(Trim(raw)).value;
            var (total, next) := Accumulate(k, accs, s.random);
            Resolve(raw, s, counters, accs, cache) == Resolution(Some(FixedV(total, 2)), counters, next, cache)
  {
    HandlersExclusive(Trim(raw), s);
  }
}
