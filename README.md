# Template engine of the MQTT data simulator

This project models the template-substitution engine in `static/js/dataSimulator.js`. The
simulator uses it to fill message payloads. `processTemplate(template, context)` finds every
bracket expression `[...]` that the regular expression `/\[(.*?)\]/g` matches, trims its inner
text and hands it to five handlers in a fixed order:

1. the timestamps `当前时间戳-秒` and `当前时间戳-毫秒`;
2. the random numbers `随机数 a-b` (integer) and `随机浮点数 a-b [digits]` (float);
3. the date format `日期格式 format`;
4. the auto-increment id `自增ID key [start] [step]`;
5. the accumulator `累计值 start min-max`.

The first handler that accepts the expression supplies the replacement. A match that every
handler declines is put back exactly as written.

Two of the handlers keep state in the caller's `context` object, and that state survives
between calls:

- the auto-increment counters;
- the running totals of the accumulators.

A per-call cache makes a repeated auto-increment expression yield one id within one render.

The model is split into these modules:

- `JsText` (`js_text.dfy`): the JavaScript string and number behaviour the engine relies on. This
  covers `trim`, `split(/\s+/)`, `String(n)`, `parseInt`, `parseFloat`, zero padding and `toFixed`.
- `Ranges` (`ranges.dfy`): the two anchored range patterns `^(-?\d+)-(-?\d+)$` and
  `^(-?\d*\.?\d+)-(-?\d*\.?\d+)$`.
- `DateFormat` (`date_format.dfy`): `_formatDateTime`.
- `Handlers` (`handlers.dfy`): the five handlers and the dispatch.
  - The stateless handlers are functions of the expression and of what the environment reports.
  - The two stateful handlers are given as functions from the old state to the new one.
- `Engine` (`engine.dfy`): the scan of `replace` with a state-threading callback.
  - `ProcessTemplate` specifies one call.
  - The class `RenderState` holds the context's two maps. Its methods update them in place and
    are proved equal to those specifications.
- `AutoIdCacheKey` (`autoid_cache_key.dfy`): the per-call cache indexed by text, as the source
  writes it, and the collision that results (see Findings).

The clock and `Math.random()` are parameters. A `Sample` holds the three readings one match may
use: `Date.now()`, the local date fields of `new Date()` and one random draw in [0, 1).
`env(i)` is the sample for the match at offset `i`.

Rendering `[累计值 100 1-1] [累计值 100 1-1]` on a fresh context gives `101.00 102.00`, because the
accumulator handler returns `total.toFixed(2)` (`Handlers.AccumulatorScenario`).

## Model

| member | source | states |
|---|---|---|
| JsText.TrimExact | static/js/dataSimulator.js:68 | `trim` drops white space at the two ends and nothing else: the result is the slice of the input between the leading and the trailing run of white space, and it neither starts nor ends with white space |
| JsText.SplitWs | static/js/dataSimulator.js:96 | `split(/\s+/)` gives at least one piece; no piece holds white space; the first piece is a prefix of the input; text without white space is one piece |
| JsText.SplitWsJoin | static/js/dataSimulator.js:96 | the pieces joined back with the white-space runs that separated them give the input, and there is one run fewer than there are pieces |
| JsText.SplitWsOfJoin | static/js/dataSimulator.js:155 | non-empty words without white space, joined by white-space runs, split back into exactly those words |
| JsText.SplitWsTrimmedWords | static/js/dataSimulator.js:155 | every piece of a non-empty trimmed text is non-empty |
| JsText.SplitWsWord | static/js/dataSimulator.js:155 | a word followed by one space splits off as the first piece |
| JsText.IntToString | static/js/dataSimulator.js:57 | `String(n)` is the shortest decimal spelling of `n`: digits with no leading zero (`0` alone for zero) spelling `abs(n)`, after a `-` exactly when `n` is negative |
| JsText.IntToStringInjective | static/js/dataSimulator.js:165 | different integers have different spellings, so the start and step in the cache key text are read back unambiguously (used by `AutoIdCacheKey.HyphenFreeKeysKept`) |
| JsText.IntToStringNoSpace | static/js/dataSimulator.js:155 | an integer's spelling holds no white space |
| JsText.PadValue | static/js/dataSimulator.js:36 | `('0'.repeat(z) + n).slice(-z)` of `n < 10^z` is exactly `z` digits spelling `n` |
| JsText.ParseIntWithoutDigits | static/js/dataSimulator.js:75-76 | `parseInt` of text without any digit is `NaN` |
| JsText.ParseIntOfString | static/js/dataSimulator.js:159-160 | `parseInt` reads back `String(n)` followed by any non-digit text as `n` |
| JsText.ParseIntOfSpelling | static/js/dataSimulator.js:159-160 | `parseInt(String(n), 10)` is `n` |
| JsText.ParseFloatWithoutDigits | static/js/dataSimulator.js:108-109 | `parseFloat` of text without any digit is `NaN` |
| JsText.ParseFloat | static/js/dataSimulator.js:218 | definition of `parseFloat`: leading white space is skipped, one optional `+` or `-` is read, then the longest prefix `digits [. digits] [e [+-] digits]` with a digit before or after the point; without one the result is `NaN`; its properties are `ParseFloatOfNumber`, `ParseFloatSigned`, `ParseFloatWithoutDigits` and the three `ParseFloat…Example` lemmas |
| JsText.ParseFloatOfNumber | static/js/dataSimulator.js:218 | the longest-prefix rule for every input: white space, an optional sign, digits `ip` with an optional point and digits `fp` (at least one digit), then any tail that cannot extend them, is read as `ip.fp` scaled by 10 to the tail's exponent part and negated by `-`; whatever follows is ignored |
| JsText.ParseFloatSigned | static/js/dataSimulator.js:218 | after leading white space one `+` or `-` is read and a `-` negates the number after it; no number after the sign is `NaN` |
| JsText.UnsignedFloatOfParts | static/js/dataSimulator.js:218 | the unsigned number at the front is its digits, optional point and fraction digits, scaled by the exponent part that follows, and the rest of the text is ignored |
| JsText.ExponentOfParts | static/js/dataSimulator.js:218 | an exponent part `e` or `E`, an optional sign and digits is read up to the first non-digit, and a `-` makes it negative |
| JsText.ParseFloatExponentExample | static/js/dataSimulator.js:218 | `parseFloat("1e3")` is 1000: the exponent part is read |
| JsText.ParseFloatTrailingExample | static/js/dataSimulator.js:218 | `parseFloat("12abc")` is 12: trailing text is ignored |
| JsText.ParseFloatPlusExample | static/js/dataSimulator.js:218 | `parseFloat("+.5")` is 0.5: a leading `+` is read and no digit is needed before the point |
| JsText.RoundHalfUp | static/js/dataSimulator.js:118 | the nearest integer, the larger one on a tie, as `toFixed` chooses |
| JsText.FixedUnits | static/js/dataSimulator.js:118 | the number of units of 10^-f that `toFixed(f)` shows is within half a unit of `abs(x)` |
| JsText.FixedText | static/js/dataSimulator.js:254 | the `toFixed` text: at least `f + 1` digits, a leading `-` exactly for a negative value, and `f` digits after the point |
| JsText.ToFixedValue | static/js/dataSimulator.js:118 | the digits of `x.toFixed(f)`, read without the sign and the point, spell `abs(x)` rounded to units of 10^-f |
| JsText.ToFixedWhole | static/js/dataSimulator.js:254 | `m.toFixed(2)` of any whole number `m >= 0` is the spelling of `m` followed by `.00` (`0.00` for 0) |
| Ranges.MatchIntRange | static/js/dataSimulator.js:72 | a match splits the text at a `-` into two signed-integer groups |
| Ranges.IntRangeExact | static/js/dataSimulator.js:72 | the integer pattern matches `x-y` with groups `x`, `y` exactly when both are signed integers (both directions) |
| Ranges.MatchDecimalRange | static/js/dataSimulator.js:106 | a match splits the text at a `-` into two signed-decimal groups |
| Ranges.DecimalRangeExact | static/js/dataSimulator.js:222 | the decimal pattern matches `x-y` with groups `x`, `y` exactly when both are signed decimals (both directions) |
| Ranges.ParseIntOfGroup | static/js/dataSimulator.js:75-78 | `parseInt` reads a signed-integer group as its value, so the `isNaN` test never rejects |
| Ranges.ParseFloatOfGroup | static/js/dataSimulator.js:108-111 | `parseFloat` reads a signed-decimal group as its value (whole digits, fraction digits, sign), so the `isNaN` test never rejects |
| Ranges.WholeDecimalText | static/js/dataSimulator.js:222-226 | the spelling of a natural number is a signed decimal worth that number |
| DateFormat.TokenLength | static/js/dataSimulator.js:39 | the token of `YYYY\|MM\|DD\|HH\|mm\|ss\|SSS` at the front, if any, repeats one token letter |
| DateFormat.TokenSet | static/js/dataSimulator.js:39 | a text is a whole token exactly when it is one of `YYYY`, `MM`, `DD`, `HH`, `mm`, `ss`, `SSS` (both directions) |
| DateFormat.Field | static/js/dataSimulator.js:40-48 | definition of the callback's `switch`: the field the token starting with each letter becomes; stated by `TokenFields` |
| DateFormat.TokenFields | static/js/dataSimulator.js:40-48 | each token alone becomes its field: `YYYY` the year, `MM` the month, `DD` the day, `HH` the hour, `mm` the minute, `ss` the second, `SSS` the milliseconds |
| DateFormat.TokenAtFront | static/js/dataSimulator.js:39 | the length found at the front is a token from that set, and when none is found no prefix of the format is one |
| DateFormat.SubstituteSeparator | static/js/dataSimulator.js:39-50 | a character that is no token letter is copied and the scan goes on after it |
| DateFormat.TokenThenSeparator | static/js/dataSimulator.js:39-50 | a token followed by a separator becomes its field, the separator, then the rest substituted |
| DateFormat.ThreeTokens | static/js/dataSimulator.js:39-50 | three tokens joined by two separators become their three fields joined by the same separators |
| DateFormat.TwoParts | static/js/dataSimulator.js:39-50 | a date part, a separator and a time part are substituted part by part |
| DateFormat.FormatClock | static/js/dataSimulator.js:39-50 | `HH:mm:ss.SSS` becomes hour, `:`, minute, `:`, second, `.`, milliseconds |
| DateFormat.FormatClockSeconds | static/js/dataSimulator.js:39-50 | `HH:mm:ss` becomes hour, minute and second joined by `:` |
| DateFormat.FormatDocumentedFields | static/js/dataSimulator.js:13 | the documented format `YYYY-MM-DD HH:mm:ss` becomes year-month-day, a space, hour:minute:second |
| DateFormat.FormatDocumented | static/js/dataSimulator.js:32-51 | `YYYY-MM-DD HH:mm:ss` of a date is `String(year)`, the two-digit month and day, a space, and the two-digit hour, minute and second, with the separators copied |
| DateFormat.RunStartsNoToken | static/js/dataSimulator.js:39 | fewer than four `Y` or fewer than three `S`, followed by another character, start no token |
| DateFormat.CopyFront | static/js/dataSimulator.js:39-50 | a character that starts no token is copied and the scan resumes one character later |
| DateFormat.RunCopied | static/js/dataSimulator.js:39-50 | a run of fewer than four `Y` or fewer than three `S` is copied unchanged, whatever other text follows |
| DateFormat.NonTokenRuns | static/js/dataSimulator.js:39-50 | `Y`, `YY`, `YYY`, `S` and `SS` alone come back unchanged |
| DateFormat.FieldsOf | static/js/dataSimulator.js:36-47 | the year is `String(year)`; the other fields are two characters and the milliseconds three |
| DateFormat.FieldDigits | static/js/dataSimulator.js:36-47 | every field except the year is exactly its width in digits, spelling the field's value |
| DateFormat.FormatPlainText | static/js/dataSimulator.js:39-50 | text without token letters is copied unchanged |
| DateFormat.FormatConcat | static/js/dataSimulator.js:39-50 | a format is substituted piece by piece when a piece does not start with a token letter: the scan goes left to right, whole tokens only |
| DateFormat.SubstituteTokens | static/js/dataSimulator.js:39-50 | three tokens separated by hyphens become their three fields separated by hyphens |
| DateFormat.SubstituteTokenThen | static/js/dataSimulator.js:39-50 | a whole token followed by any text becomes its field, then the rest substituted: the scan resumes right after the token |
| DateFormat.FormatIsoDate | static/js/dataSimulator.js:39-50 | `YYYY-MM-DD` becomes year, month and day joined by hyphens |
| DateFormat.FormatIsoDateExample | static/js/dataSimulator.js:32-51 | 5 January 2024 in `YYYY-MM-DD` is `2024-01-05` |
| Handlers.ParamsAfterExact | static/js/dataSimulator.js:68 | the parameter text is the input after the keyword with the white space at its two ends dropped, and nothing else dropped |
| Handlers.Timestamp | static/js/dataSimulator.js:55-63 | only the two timestamp expressions are accepted; seconds are the milliseconds rounded down, milliseconds are `Date.now()` |
| Handlers.IntBounds | static/js/dataSimulator.js:72-81 | the range is read exactly when the integer pattern matches; the bounds are the two groups' values, smaller first |
| Handlers.DrawInt | static/js/dataSimulator.js:83 | `floor(r * (max - min + 1)) + min` lies in [min, max] |
| Handlers.RandomInteger | static/js/dataSimulator.js:67-87 | `随机数` accepts exactly the texts the integer pattern matches and yields an integer within the bounds |
| Handlers.RandomIntegerSymmetric | static/js/dataSimulator.js:79-83 | `a-b` and `b-a` are both accepted and draw the same number |
| Handlers.DrawReal | static/js/dataSimulator.js:117 | `min + r * (max - min)` lies in [min, max] |
| Handlers.DecimalBounds | static/js/dataSimulator.js:106-114 | the range is read exactly when the decimal pattern matches; the bounds are the `parseFloat` values of the two groups, smaller first |
| Handlers.RandomFloat | static/js/dataSimulator.js:90-129 | `随机浮点数` is accepted exactly when the precision (default 2) reads as a number in 0..100 and the range matches; the value lies within the bounds and is shown with that precision |
| Handlers.RandomNumber | static/js/dataSimulator.js:65-133 | the integer form is tried first and its failure is final; otherwise the float form; anything else is declined |
| Handlers.DateFormatExpr | static/js/dataSimulator.js:135-143 | `日期格式` is accepted exactly when the format after it is non-empty, and yields `_formatDateTime` of the current date with that trimmed format |
| Handlers.DateFormatIsoExample | static/js/dataSimulator.js:135-143 | `日期格式 YYYY-MM-DD` renders the year, the padded month and the padded day joined by `-` |
| Handlers.OrOne | static/js/dataSimulator.js:159-160 | `parseInt(...) \|\| 1`: `NaN` and 0 become 1; every other value is kept |
| Handlers.ParseAutoIncrement | static/js/dataSimulator.js:153-162 | accepted exactly when the keyword is followed by a non-empty parameter text; the key is the first word; start and step are the second and third words read by `parseInt`, and 1 when that word is missing, unreadable or 0 |
| Handlers.ParseAutoIncrementKeyOnly | static/js/dataSimulator.js:155-160 | `自增ID key` alone counts from 1 in steps of 1 |
| Handlers.ParseAutoIncrementDefaults | static/js/dataSimulator.js:159-160 | a start or step word that `parseInt` reads as `NaN` or 0 becomes 1 |
| Handlers.ParseAutoIncrementZeroAndLetters | static/js/dataSimulator.js:159-160 | `自增ID key 0 0` and `自增ID key abc 0` both count from 1 in steps of 1 |
| Handlers.ParseAutoIncrementOf | static/js/dataSimulator.js:155-160 | every request the parser yields is read back from `自增ID key start step` |
| Handlers.NextId | static/js/dataSimulator.js:174-197 | an unseen key, or one whose sequence began at another start, yields the start; otherwise the stored value plus the stored step; the stored counter becomes (id, this step, this start) |
| Handlers.AutoIncrement | static/js/dataSimulator.js:165-199 | a request already cached in this call gets the cached id and changes nothing; otherwise the id is `NextId`'s, it is cached under the request, and the key's counter becomes (id, this step, this start); other keys' counters and cached ids are kept |
| Handlers.AutoIncrementIdempotent | static/js/dataSimulator.js:165-168 | a repeated request in the same render gets the same id and changes nothing |
| Handlers.AutoIncrementAcrossRenders | static/js/dataSimulator.js:177-197 | from an unseen key (or one that began at another start), render n+1 yields start + n * step |
| Handlers.AutoIncrementStepChange | static/js/dataSimulator.js:185-196 | from a stored counter (v, old step, same start), a changed step takes effect one advance late: the ids are v + old step, then v + old step + new step |
| Handlers.AutoIncrementScenario | static/js/dataSimulator.js:165-199 | `[自增ID x 10 5]` twice gives 10 and 10; the next render gives 15; `[自增ID x 20 1]` then restarts at 20 |
| Handlers.ParseAccumulator | static/js/dataSimulator.js:210-231 | accepted exactly when the keyword is followed by two words, the first read by `parseFloat` and the second matching the decimal range; the start is the first word's value and the step bounds are the range's values, smaller first |
| Handlers.ParseAccumulatorOf | static/js/dataSimulator.js:210-231 | `累计值 start x-y` with signed decimals reads back the value of `start` and the smaller and larger of `x` and `y` |
| Handlers.ParseAccumulatorExample | static/js/dataSimulator.js:210-231 | `累计值 100 1-1` starts at 100 with steps of exactly 1 |
| Handlers.ParseAccumulatorExponentStart | static/js/dataSimulator.js:218-219 | `累计值 1e3 1-2` is accepted and starts at 1000: the start is read by `parseFloat`, exponent part included |
| Handlers.Accumulate | static/js/dataSimulator.js:236-251 | the total grows from the stored value (the start when unseen) by a step in [min, max], and is stored under the key |
| Handlers.SumOfSteps | static/js/dataSimulator.js:248-251 | `n` equal steps of `x` add up to `n * x` |
| Handlers.AccumulatedBounds | static/js/dataSimulator.js:243-251 | after n resolutions the total lies between total + n steps of min and total + n steps of max, and the key is present |
| Handlers.AccumulatorScenario | static/js/dataSimulator.js:210-254 | the text `累计值 100 1-1`, parsed and resolved twice on a fresh context, gives `101.00` and `102.00` |
| Handlers.AccumulatorTotals | static/js/dataSimulator.js:243-254 | two steps of exactly 1 from 100 show as `101.00` and `102.00` |
| Handlers.ResolveStatelessAccepts | static/js/dataSimulator.js:296-315 | the first three handlers accept exactly the expressions `StatelessAccepts` names |
| Handlers.ResolveContract | static/js/dataSimulator.js:288-334 | a value exactly for a recognised expression (both directions); a declined one changes nothing; only auto-increment touches counters and cache, only the accumulator the totals; nothing is removed and no cached id changes |
| Handlers.ResolveStatefulContract | static/js/dataSimulator.js:318-329 | the auto-increment and accumulator handlers give a value exactly when one accepts; a decline changes nothing; only auto-increment touches counters and cache, only the accumulator the totals; nothing is removed and no cached id changes |
| Handlers.HandlersExclusive | static/js/dataSimulator.js:297-330 | at most one handler accepts any expression, so an earlier handler's acceptance means the later ones would decline |
| Handlers.ResolveAutoIncrementExpr | static/js/dataSimulator.js:318-322 | an auto-increment expression is resolved by the auto-increment step alone |
| Handlers.ResolveAccumulatorExpr | static/js/dataSimulator.js:325-329 | an accumulator expression is resolved by the accumulator step alone |
| Engine.CloseAt | static/js/dataSimulator.js:290 | `(.*?)\]` closes at the nearest `]`, and fails when a line terminator comes first |
| Engine.LineEndsFirst | static/js/dataSimulator.js:290 | a line terminator before any `]` leaves the `[` unmatched |
| Engine.MatchStep | static/js/dataSimulator.js:290 | `[e]` with plain `e` is one match with group `e`; the scan resumes after it |
| Engine.SingleMatch | static/js/dataSimulator.js:290 | a template that is a single match becomes the callback's result |
| Engine.TwoMatches | static/js/dataSimulator.js:290 | `[e] [e]`: the second call sees the state the first left |
| Engine.NextScan | static/js/dataSimulator.js:290 | the scan always moves forward: past the match found at `i`, or to the next character |
| Engine.DeclinedFrom | static/js/dataSimulator.js:290-334 | a callback that declines every match the scan visits returns the rest of the text and the state unchanged |
| Engine.ReplaceExtends | static/js/dataSimulator.js:290 | a callback that never removes entries removes none over a whole scan |
| Engine.CallbackExtends | static/js/dataSimulator.js:290-334 | the callback never removes an entry or changes a cached id |
| Engine.RenderKeepsEntries | static/js/dataSimulator.js:278-338 | a render never removes a counter or a running total from the context |
| Engine.CallbackDeclines | static/js/dataSimulator.js:332-333 | on an unrecognised expression the callback returns the match and leaves the state alone |
| Engine.DeclinedTemplateUnchanged | static/js/dataSimulator.js:278-338 | a template whose every match the scan visits is declined (one without matches in particular) comes back unchanged, with the context untouched |
| Engine.CallbackDeclinesFrom | static/js/dataSimulator.js:332-333 | the callback declines every visited match whose inner text no handler accepts |
| Engine.EveryBracketUnrecognised | static/js/dataSimulator.js:290 | when no `[` at all opens an accepted match, none of the visited ones does |
| Engine.SingleMatchDeclined | static/js/dataSimulator.js:290-333 | a template that is one match of plain, unaccepted inner text has every visited match declined |
| Engine.NestedBracketSwallowed | static/js/dataSimulator.js:290-333 | `[x [当前时间戳-秒]` is one match with inner text `x [当前时间戳-秒`, so it comes back unchanged |
| Engine.NotRecognised | static/js/dataSimulator.js:290-334 | an expression that starts with none of the keywords' first characters is declined by every handler |
| Engine.SingleDeclined | static/js/dataSimulator.js:332-333 | a single declined match is reinserted exactly as written |
| Engine.UnknownExpressionPassesThrough | static/js/dataSimulator.js:332-333 | a trimmed plain expression with no keyword's first character passes through unchanged |
| Engine.NotARealExprPassesThrough | static/js/dataSimulator.js:332-333 | `[not-a-real-expr]` passes through unchanged |
| Engine.EmptyBracketsPassThrough | static/js/dataSimulator.js:332-333 | `[]` passes through unchanged |
| Engine.LineBreakEndsMatch | static/js/dataSimulator.js:290 | a `[` whose `]` is on a later line is copied as text, even around a valid expression |
| Engine.CallbackAutoIncrement | static/js/dataSimulator.js:318-322 | on an auto-increment expression the callback returns `String(id)` and the counter and cache updates |
| Engine.CallbackAccumulator | static/js/dataSimulator.js:325-329 | on an accumulator expression the callback returns the new total with two decimals and the updated totals |
| Engine.SingleIdRender | static/js/dataSimulator.js:278-338 | a template that is one auto-increment expression renders the id the counter yields |
| Engine.CallbackAdvancesId | static/js/dataSimulator.js:318-322 | the callback resolves an auto-increment expression as one `IdStep` of its request, whatever the state |
| Engine.RepeatedIdWith | static/js/dataSimulator.js:165-168 | two occurrences resolved as one request render the first id twice and advance once |
| Engine.RepeatedIdInOneRender | static/js/dataSimulator.js:288 | `[e] [e]` with an auto-increment `e` renders one id twice and advances the counter once |
| Engine.CallbackAddsStep | static/js/dataSimulator.js:325-329 | the callback resolves an accumulator expression as one `AccumulatorStep` of its key with the match's draw |
| Engine.RepeatedAccumulatorWith | static/js/dataSimulator.js:243-254 | two occurrences of one accumulator take two steps, the second from where the first left off |
| Engine.RepeatedAccumulatorInOneRender | static/js/dataSimulator.js:243-254 | `[e] [e]` with an accumulator `e` renders the totals after one and after two steps |
| Engine.ScanMatch | static/js/dataSimulator.js:290-334 | resolving a match keeps the loop's invariant: what has been produced plus the rest of the scan is the whole result |
| Engine.ScanCopy | static/js/dataSimulator.js:290 | copying a character keeps the same invariant |
| Engine.RenderState.constructor | static/js/dataSimulator.js:278 | `context = {}`: both maps are empty |
| Engine.RenderState.AdvanceId | static/js/dataSimulator.js:165-199 | updates the counters in place exactly as `AutoIncrement` specifies and leaves the totals alone |
| Engine.RenderState.AddStep | static/js/dataSimulator.js:236-251 | updates the totals in place exactly as `Accumulate` specifies and leaves the counters alone |
| Engine.RenderState.ResolveMatch | static/js/dataSimulator.js:290-334 | the callback on one match, in place: replacement, cache and both maps exactly as `Resolve` specifies |
| Engine.RenderState.Render | static/js/dataSimulator.js:278-338 | `processTemplate(template, this)` with a fresh per-call cache: the text and both maps exactly as `ProcessTemplate` specifies |
| JsText.ParseInt | static/js/dataSimulator.js:159-160 | definition of `parseInt(s, 10)`: leading white space, an optional sign, the longest digit prefix, `NaN` without digits; its properties are the `ParseInt…` lemmas above |
| JsText.ToFixed | static/js/dataSimulator.js:118 | definition of `x.toFixed(f)`: sign, rounded units and the point; its properties are `FixedText` and `ToFixedValue` |
| JsText.Pad | static/js/dataSimulator.js:36 | definition of `pad`: the last `z` characters of `n` behind `z` zeros, the whole spelling of `n` when `z` is 0 (`slice(-0)`); its property is `PadValue` |
| DateFormat.Substitute | static/js/dataSimulator.js:39-50 | definition of the `replace` scan over the format; its properties are `FormatPlainText`, `FormatConcat`, `SubstituteTokenThen`, `TokenThenSeparator`, `RunCopied` and `NonTokenRuns` |
| DateFormat.FormatDateTime | static/js/dataSimulator.js:32-51 | definition of `_formatDateTime` for a valid date; its properties are `FormatIsoDate`, `FormatIsoDateExample`, `FormatClock`, `FormatDocumented` and `NonTokenRuns` |
| Handlers.Show | static/js/dataSimulator.js:57-61 | definition of the text a handler returns for its value: `String`, `toFixed` or the formatted date |
| Handlers.Precision | static/js/dataSimulator.js:98 | definition of the float precision: `parseInt` of the second word, 2 when there is none; its use is stated by `RandomFloat`, `RandomFloatDefaultPrecision` and `RandomFloatGivenPrecision` |
| Handlers.RandomFloatDefaultPrecision | static/js/dataSimulator.js:96-98 | a range with no precision word is accepted and shown with 2 decimals |
| Handlers.RandomFloatGivenPrecision | static/js/dataSimulator.js:96-118 | a range followed by a precision word is accepted exactly when `parseInt` of that word is a number in 0..100, and is then shown with that many decimals |
| Handlers.ZeroToOneRange | static/js/dataSimulator.js:106 | `0-1` matches the decimal range pattern |
| Handlers.ParseIntOfDigits | static/js/dataSimulator.js:98 | `parseInt` of the spelling of a natural number is that number |
| Handlers.RandomFloatPrecisionExamples | static/js/dataSimulator.js:9-10 | `随机浮点数 0-1` shows 2 decimals, `0-1 3` shows 3, and `0-1 101` is rejected |
| Handlers.ResolveStateless | static/js/dataSimulator.js:296-315 | definition of the first three handler calls in order; stated by `ResolveStatelessAccepts` |
| Handlers.ResolveStateful | static/js/dataSimulator.js:318-329 | definition of the auto-increment then accumulator calls; stated by `ResolveAutoIncrementExpr` and `ResolveAccumulatorExpr` |
| Handlers.Resolve | static/js/dataSimulator.js:291-333 | definition of the callback's dispatch on the trimmed expression; stated by `ResolveContract` and `HandlersExclusive` |
| Engine.ReplaceFrom | static/js/dataSimulator.js:290 | definition of `replace(/\[(.*?)\]/g, f)` from position `i`; stated by `MatchStep`, `SingleMatch`, `TwoMatches`, `DeclinedFrom` and `ReplaceExtends` |
| Engine.ReplaceMatch | static/js/dataSimulator.js:290 | definition of one match: the callback's replacement, then the scan after the match |
| Engine.Callback | static/js/dataSimulator.js:290-334 | definition of the callback `processTemplate` passes; stated by `CallbackExtends`, `CallbackDeclines`, `CallbackAutoIncrement` and `CallbackAccumulator` |
| Engine.ProcessTemplate | static/js/dataSimulator.js:278-338 | definition of one `processTemplate` call with a fresh per-call cache; stated by `RenderKeepsEntries`, `DeclinedTemplateUnchanged`, `SingleIdRender` and the `Repeated…InOneRender` lemmas |
| AutoIdCacheKey.AutoIncrementAsWritten | static/js/dataSimulator.js:165-199 | the text-keyed cache as written: a spelled key already cached returns its id and changes nothing |
| AutoIdCacheKey.CacheKeysCollide | static/js/dataSimulator.js:165 | two different requests spell the same cache key |
| AutoIdCacheKey.HyphenFreeKeysKept | static/js/dataSimulator.js:165 | when neither key contains `-`, equal key texts mean equal requests: a collision needs a `-` in a key |
| AutoIdCacheKey.AsWrittenSharesId | static/js/dataSimulator.js:165-168 | as written, `自增ID x -1 3` after `自增ID x- 1 3` gets 1, though on its own it starts at -1 |
| AutoIdCacheKey.SeparateKeysIndependent | static/js/dataSimulator.js:165-199 | with the request-keyed cache, resolving one key never changes the id another key gets next |
| AutoIdCacheKey.CorrectedKeepsApart | static/js/dataSimulator.js:165-199 | with the request-keyed cache the same two expressions give 1 and -1 |

## Left out

- Numbers are exact. Integers are unbounded and decimals are reals, not IEEE doubles.
  - The model has no rounding error in `min + r * (max - min)` or in `+=`.
  - It has no `Infinity` and no loss of precision past 2^53.
  - `parseFloat` is not modelled on the text `Infinity`, which it reads as a number; the model declines it.
- JsText.SplitWs: its own contract states the shape of the first piece only; what the other pieces are is stated by `JsText.SplitWsJoin` and `JsText.SplitWsOfJoin`.
- Handlers.AutoIdCache: the per-call cache is a map from the request (key, start, step) to the id, where the source indexes an object by the text `autoid-${key}-${start}-${step}`; see `Handlers.AutoIncrement` below.
- Handlers.AutoIncrement: the per-call cache is keyed by the request (key, start, step), not by the text `autoid-${key}-${start}-${step}`. The two differ when texts collide: `[自增ID x- 1 3] [自增ID x -1 3]` renders `1 -1` here and `1 1` in the source (see Findings).
- Engine.RenderState.AdvanceId: uses the same request-keyed cache as `Handlers.AutoIncrement`, so it differs from the source in the same colliding case.
- Engine.RenderState.Render: renders with the request-keyed cache, so a template holding two colliding auto-increment expressions renders as the corrected definition does, not as the source does.
- DateFormat.FormatDateTime: it has no contract of its own; it is `Substitute` over the fields of `FieldsOf`, whose widths `FieldsOf` and `FieldDigits` state. The scan is stated by lemmas: which texts are tokens (`TokenSet`, `TokenAtFront`), how a token, a copied character or a short run is handled (`SubstituteTokenThen`, `CopyFront`, `RunCopied`), and the documented formats `YYYY-MM-DD`, `HH:mm:ss.SSS` and `YYYY-MM-DD HH:mm:ss` (`FormatIsoDate`, `FormatClock`, `FormatDocumented`).
- JsText.ToFixed: only the plain decimal form is modelled. `toFixed` switches to exponent form for values of 10^21 and more.
- The clock and `Math.random()` are parameters. Each match gets one `Sample`, and each handler reads at most one of its fields.
- `console.log`, `console.warn` and `console.error` are left out; they have no effect on results.
- The guard that returns a non-string template unchanged is left out, because templates here are strings.
- `safeProcessTemplate` only turns a thrown exception into the original template. The modelled engine throws nothing.
- The module export boilerplate is left out.
- The counter map and the totals map are created lazily. This is not modelled: an absent map and an empty map behave the same.
- Keys that name properties of `Object.prototype` (such as `constructor` or `__proto__`) are not modelled. The model treats all keys alike.
- Strings are sequences of code points, not of UTF-16 code units. All the keywords and patterns here lie in the Basic Multilingual Plane.
- The accumulator's text key `${start}_${min}_${max}` is modelled as the triple of numbers. Distinct numbers spell distinct texts, so this loses nothing.
- The invalid-`Date` branch of `_formatDateTime` is left out, because `new Date()` is always valid.

## Findings

| source | as written | input that shows it | evidently intended | confidence | as-written member | corrected member |
|---|---|---|---|---|---|---|
| static/js/dataSimulator.js:165 | the per-call cache key is the text `autoid-${key}-${start}-${step}`. Keys may contain `-` and start or step may be negative, so different requests share a key | `[自增ID x- 1 3] [自增ID x -1 3]` on a fresh context renders `1 1` | one cache entry per (key, start, step), rendering `1 -1` | high, not executed | AutoIdCacheKey.AsWrittenSharesId | AutoIdCacheKey.CorrectedKeepsApart |

The rest of the model (`Handlers.AutoIncrement`, `Engine.RenderState.AdvanceId`) keys the cache by the
request itself. `AutoIdCacheKey.SeparateKeysIndependent` proves the intended property for it.
