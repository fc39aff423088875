/**
  `processTemplate`: `template.replace(/\[(.*?)\]/g, callback)` with a fresh per-call
  auto-increment cache. The regular expression finds, from left to right, a `[`
  followed by the nearest `]` with no line terminator in between; the callback
  resolves the inner text and its result replaces the match, or the match is put back
  when every handler declines. Scanning resumes after the match.

  `ReplaceFrom` is `replace` with a callback that threads the state it closes over;
  `Callback` is the one `processTemplate` passes, and `ProcessTemplate` specifies one
  call. `RenderState` holds the caller-owned context and renders in place.
*/
module Engine {
  import opened Wrappers
  import opened JsText
  import opened Handlers

  // ---------------------------------------------------------------- the scan of /\[(.*?)\]/g

  /**
    A `]` at `j` closes a `[` whose inner text starts at `from`: `.*?` cannot step over
    a line terminator.
  */
  predicate ClosesAt(t: string, from: nat, j: nat) {
    from <= j < |t| && t[j] == ']' && forall k :: from <= k < j ==> !IsLineTerminator(t[k])
  }

  /** The non-greedy `(.*?)\]`: the nearest closing `]`, or `None` when a line ends first. */
  function CloseAt(t: string, from: nat): (r: Option<nat>)
    requires from <= |t|
    ensures r.Some? ==> ClosesAt(t, from, r.value) && forall k :: from <= k < r.value ==> t[k] != ']'
    ensures r.None? ==> forall j :: !ClosesAt(t, from, j)
    decreases |t| - from
  {
    if from == |t| || IsLineTerminator(t[from]) then None
    else if t[from] == ']' then Some(from)
    else
      var r := CloseAt(t, from + 1);
      assert forall j :: ClosesAt(t, from, j) ==> ClosesAt(t, from + 1, j);
      r
  }

  /** A line terminator before any `]` leaves the `[` unmatched. */
  lemma {:induction false} LineEndsFirst(t: string, from: nat, n: nat)
    requires from <= n < |t| && IsLineTerminator(t[n])
    requires forall k :: from <= k < n ==> t[k] != ']'
    ensures CloseAt(t, from).None?
    decreases n - from
  {
    if from < n && !IsLineTerminator(t[from]) {
      LineEndsFirst(t, from + 1, n);
    }
  }

  /** The state a callback closes over: the caller's context and the per-call cache. */
  datatype CallState = CallState(counters: Counters, accumulators: Accumulators, cache: AutoIdCache)

  /**
    A `replace` callback: given the offset of the match, the matched text and the
    captured group, it returns the replacement and the state after it.
  */
  type Replacer = (nat, string, string, CallState) -> (string, CallState)

  /** `t.replace(/\[(.*?)\]/g, f)` from position `i` on, and the state after the last call of `f`. */
  function ReplaceFrom(t: string, i: nat, f: Replacer, st: CallState): (string, CallState)
    requires i <= |t|
    decreases |t| - i, 1
  {
    if i == |t| then ([], st)
    else
      var close := if t[i] == '[' then CloseAt(t, i + 1) else None;
      if close.Some? then ReplaceMatch(t, i, close.value, f, st)
      else
        var rest := ReplaceFrom(t, i + 1, f, st);
        ([t[i]] + rest.0, rest.1)
  }

  /** The match `t[i..j + 1]`: the callback's replacement, then the scan from after the match. */
  function ReplaceMatch(t: string, i: nat, j: nat, f: Replacer, st: CallState): (string, CallState)
    requires i < j < |t|
    decreases |t| - i, 0
  {
    var (piece, st') := f(i, t[i..j + 1], t[i + 1..j], st);
    var rest := ReplaceFrom(t, j + 1, f, st');
    (piece + rest.0, rest.1)
  }

  /** The inner text of a match: neither a `]` nor a line terminator. */
  predicate Plain(e: string) {
    forall k :: 0 <= k < |e| ==> e[k] != ']' && !IsLineTerminator(e[k])
  }

  /** `[e]` at position `i`, with `e` plain, is one match whose captured group is `e`. */
  lemma MatchStep(t: string, i: nat, e: string, f: Replacer, st: CallState)
    requires i + |e| + 2 <= |t| && t[i] == '[' && t[i + 1..i + 1 + |e|] == e && t[i + 1 + |e|] == ']' && Plain(e)
    ensures var (piece, st') := f(i, "[" + e + "]", e, st);
            var rest := ReplaceFrom(t, i + |e| + 2, f, st');
            ReplaceFrom(t, i, f, st) == (piece + rest.0, rest.1)
  {
    var c := i + 1 + |e|;
    assert ClosesAt(t, i + 1, c) by {
      forall k | i + 1 <= k < c ensures !IsLineTerminator(t[k]) {
        assert t[k] == e[k - i - 1];
      }
    }
    assert forall k :: i + 1 <= k < c ==> t[k] == e[k - i - 1];
    var j := CloseAt(t, i + 1).value;
    assert j == c;
    assert t[i..j + 1] == "[" + e + "]";
  }

  /** At a `[` with a closing `]`: the callback's replacement, then the rest after the match. */
  lemma MatchAt(t: string, i: nat, f: Replacer, st: CallState)
    requires i < |t| && t[i] == '[' && CloseAt(t, i + 1).Some?
    ensures var j := CloseAt(t, i + 1).value;
            var (piece, st') := f(i, t[i..j + 1], t[i + 1..j], st);
            var rest := ReplaceFrom(t, j + 1, f, st');
            ReplaceFrom(t, i, f, st) == (piece + rest.0, rest.1)
  {
  }

  /** Anywhere else the character is copied. */
  lemma CopyAt(t: string, i: nat, f: Replacer, st: CallState)
    requires i < |t| && (t[i] != '[' || CloseAt(t, i + 1).None?)
    ensures var rest := ReplaceFrom(t, i + 1, f, st);
            ReplaceFrom(t, i, f, st) == ([t[i]] + rest.0, rest.1)
  {
  }

  /** A template that is a single match is replaced by what the callback returns. */
  lemma SingleMatch(e: string, f: Replacer, st: CallState)
    requires Plain(e)
    ensures ReplaceFrom("[" + e + "]", 0, f, st) == f(0, "[" + e + "]", e, st)
  {
    var t := "[" + e + "]";
    MatchStep(t, 0, e, f, st);
    var r := f(0, t, e, st);
    assert ReplaceFrom(t, |t|, f, r.1) == ([], r.1);
    assert r.0 + [] == r.0;
  }

  /** `[e] [e]`: two matches, the second called with the state the first left. */
  lemma TwoMatches(e: string, f: Replacer, st: CallState)
    requires Plain(e)
    ensures var m := "[" + e + "]";
            var first := f(0, m, e, st);
            var second := f(|e| + 3, m, e, first.1);
            ReplaceFrom(m + " " + m, 0, f, st) == (first.0 + " " + second.0, second.1)
  {
    var m := "[" + e + "]";
    var t := m + " " + m;
    var n := |e| + 2;
    var first := f(0, m, e, st);
    var second := f(n + 1, m, e, first.1);
    assert t[..n] == m && t[n] == ' ' && t[n + 1..] == m;
    MatchStep(t, 0, e, f, st);
    assert ReplaceFrom(t, n, f, first.1) == (" " + ReplaceFrom(t, n + 1, f, first.1).0, ReplaceFrom(t, n + 1, f, first.1).1);
    MatchStep(t, n + 1, e, f, first.1);
    assert ReplaceFrom(t, |t|, f, second.1) == ([], second.1);
    assert first.0 + (" " + (second.0 + [])) == first.0 + " " + second.0;
  }

  /** `f` puts the match back and changes nothing, whatever the state. */
  ghost predicate Declines(f: Replacer, i: nat, matched: string, inner: string) {
    forall st :: f(i, matched, inner, st) == (matched, st)
  }

  /** `f` declines the match at `i`, if the scan finds one there. */
  ghost predicate DeclinesAt(t: string, f: Replacer, i: nat) {
    i < |t| && t[i] == '[' && CloseAt(t, i + 1).Some? ==>
      var j := CloseAt(t, i + 1).value;
      Declines(f, i, t[i..j + 1], t[i + 1..j])
  }

  /** Where the scan goes on from `i`: after the match found there, or to the next character. */
  function NextScan(t: string, i: nat): (n: nat)
    requires i < |t|
    ensures i < n <= |t|
  {
    var close := if t[i] == '[' then CloseAt(t, i + 1) else None;
    if close.Some? then close.value + 1 else i + 1
  }

  /**
    `f` declines every match the scan finds from `i` on. Only the positions the scan
    visits count: a `[` inside a match is never a match of its own.
  */
  ghost predicate DeclinesFrom(t: string, f: Replacer, i: nat)
    requires i <= |t|
    decreases |t| - i
  {
    i < |t| ==> DeclinesAt(t, f, i) && DeclinesFrom(t, f, NextScan(t, i))
  }

  /** A callback that declines every match leaves the rest of the text and the state as they are. */
  lemma {:induction false} DeclinedFrom(t: string, i: nat, f: Replacer, st: CallState)
    requires i <= |t| && DeclinesFrom(t, f, i)
    ensures ReplaceFrom(t, i, f, st) == (t[i..], st)
    decreases |t| - i
  {
    if i < |t| {
      var n := NextScan(t, i);
      DeclinedFrom(t, n, f, st);
      DeclinedStep(t, i, f, st);
      assert t[i..] == t[i..n] + t[n..];
    } else {
      assert t[i..] == [];
    }
  }

  /** A declined step of the scan puts back what it passes over, and leaves the state alone. */
  lemma DeclinedStep(t: string, i: nat, f: Replacer, st: CallState)
    requires i < |t| && DeclinesAt(t, f, i)
    ensures var n := NextScan(t, i);
            var rest := ReplaceFrom(t, n, f, st);
            ReplaceFrom(t, i, f, st) == (t[i..n] + rest.0, rest.1)
  {
    var close := if t[i] == '[' then CloseAt(t, i + 1) else None;
    if close.Some? {
      var j := close.value;
      assert f(i, t[i..j + 1], t[i + 1..j], st) == (t[i..j + 1], st);
      MatchAt(t, i, f, st);
    } else {
      CopyAt(t, i, f, st);
      assert t[i..i + 1] == [t[i]];
    }
  }

  /** No entry of the context is removed and no cached id changes from `a` to `b`. */
  predicate Extends(a: CallState, b: CallState) {
    && a.counters.Keys <= b.counters.Keys
    && a.accumulators.Keys <= b.accumulators.Keys
    && a.cache.Keys <= b.cache.Keys
    && forall q :: q in a.cache ==> b.cache[q] == a.cache[q]
  }

  ghost predicate OnlyExtends(f: Replacer) {
    forall i, matched, inner, st :: Extends(st, f(i, matched, inner, st).1)
  }

  /** A callback that never removes anything does not remove anything over a whole scan. */
  lemma {:induction false} ReplaceExtends(t: string, i: nat, f: Replacer, st: CallState)
    requires i <= |t| && OnlyExtends(f)
    ensures Extends(st, ReplaceFrom(t, i, f, st).1)
    decreases |t| - i
  {
    if i < |t| {
      var close := if t[i] == '[' then CloseAt(t, i + 1) else None;
      if close.Some? {
        var j := close.value;
        var st' := f(i, t[i..j + 1], t[i + 1..j], st).1;
        ReplaceExtends(t, j + 1, f, st');
        assert Extends(st, st');
      } else {
        ReplaceExtends(t, i + 1, f, st);
      }
    }
  }

  // ---------------------------------------------------------------- processTemplate

  /** What replaces a match: the handler's result as text, or the matched text itself. */
  function Replacement(v: Option<Value>, matched: string): string {
    if v.Some? then Show(v.value) else matched
  }

  /**
    The callback `processTemplate` passes to `replace`. The match at offset `i` is
    resolved with what the environment reports there, `env(i)`.
  */
  function Callback(env: nat -> Sample): Replacer {
    (i: nat, matched: string, inner: string, st: CallState) =>
      var r := Resolve(inner, env(i), st.counters, st.accumulators, st.cache);
      (Replacement(r.value, matched), CallState(r.counters, r.accumulators, r.cache))
  }

  /** The result of one `processTemplate` call and the context after it. */
  datatype Rendered = Rendered(text: string, counters: Counters, accumulators: Accumulators)

  /** One call: the scan with `Callback(env)`, starting with an empty per-call cache. */
  function ProcessTemplate(t: string, env: nat -> Sample, counters: Counters, accs: Accumulators): Rendered {
    var (text, st) := ReplaceFrom(t, 0, Callback(env), CallState(counters, accs, map[]));
    Rendered(text, st.counters, st.accumulators)
  }

  /** The callback on one match, unfolded: `Resolve` on the inner text, the replacement and the new state. */
  lemma CallbackResolves(env: nat -> Sample, i: nat, matched: string, inner: string, st: CallState)
    ensures var r := Resolve(inner, env(i), st.counters, st.accumulators, st.cache);
            Callback(env)(i, matched, inner, st) == (Replacement(r.value, matched), CallState(r.counters, r.accumulators, r.cache))
  {
  }

  lemma CallbackExtends(env: nat -> Sample)
    ensures OnlyExtends(Callback(env))
  {
    forall i, matched, inner, st
      ensures Extends(st, Callback(env)(i, matched, inner, st).1)
    {
      var r := Resolve(inner, env(i), st.counters, st.accumulators, st.cache);
      assert Callback(env)(i, matched, inner, st).1 == CallState(r.counters, r.accumulators, r.cache);
    }
  }

  /** A render never removes an auto-increment counter or a running total from the context. */
  lemma RenderKeepsEntries(t: string, env: nat -> Sample, counters: Counters, accs: Accumulators)
    ensures var r := ProcessTemplate(t, env, counters, accs);
            counters.Keys <= r.counters.Keys && accs.Keys <= r.accumulators.Keys
  {
    CallbackExtends(env);
    ReplaceExtends(t, 0, Callback(env), CallState(counters, accs, map[]));
  }

  /** The match the scan finds at `i`, if any, has inner text that no handler accepts. */
  predicate UnrecognisedAt(t: string, i: nat) {
    i < |t| && t[i] == '[' && CloseAt(t, i + 1).Some? ==>
      !Recognised(Trim(t[i + 1..CloseAt(t, i + 1).value]))
  }

  /** Every match the scan finds from `i` on has inner text that no handler accepts. */
  predicate UnrecognisedFrom(t: string, i: nat)
    requires i <= |t|
    decreases |t| - i
  {
    i < |t| ==> UnrecognisedAt(t, i) && UnrecognisedFrom(t, NextScan(t, i))
  }

  /** Every match the scan finds in `t` has inner text that no handler accepts. */
  predicate AllDeclined(t: string) {
    UnrecognisedFrom(t, 0)
  }

  /** When no `[` from `i` on would open an accepted match, none the scan visits does. */
  lemma {:induction false} EveryBracketUnrecognised(t: string, i: nat)
    requires i <= |t|
    requires forall k :: i <= k < |t| ==> UnrecognisedAt(t, k)
    ensures UnrecognisedFrom(t, i)
    decreases |t| - i
  {
    if i < |t| {
      EveryBracketUnrecognised(t, NextScan(t, i));
    }
  }

  lemma CallbackDeclines(env: nat -> Sample, i: nat, matched: string, inner: string)
    requires !Recognised(Trim(inner))
    ensures Declines(Callback(env), i, matched, inner)
  {
    forall st ensures Callback(env)(i, matched, inner, st) == (matched, st) {
      var r := Resolve(inner, env(i), st.counters, st.accumulators, st.cache);
      assert r.value.None?;
    }
  }

  /**
    A template in which every match is declined (in particular one without any `[`)
    comes back unchanged, each match reinserted exactly as written, and the context
    is untouched.
  */
  lemma DeclinedTemplateUnchanged(t: string, env: nat -> Sample, counters: Counters, accs: Accumulators)
    requires AllDeclined(t)
    ensures ProcessTemplate(t, env, counters, accs) == Rendered(t, counters, accs)
  {
    CallbackDeclinesFrom(t, 0, env);
    DeclinedFrom(t, 0, Callback(env), CallState(counters, accs, map[]));
    assert t[0..] == t;
  }

  /** The callback declines every match the scan visits when none of them is accepted. */
  lemma {:induction false} CallbackDeclinesFrom(t: string, i: nat, env: nat -> Sample)
    requires i <= |t| && UnrecognisedFrom(t, i)
    ensures DeclinesFrom(t, Callback(env), i)
    decreases |t| - i
  {
    if i < |t| {
      if t[i] == '[' && CloseAt(t, i + 1).Some? {
        var j := CloseAt(t, i + 1).value;
        CallbackDeclines(env, i, t[i..j + 1], t[i + 1..j]);
      }
      CallbackDeclinesFrom(t, NextScan(t, i), env);
    }
  }

  /**
    `[x [当前时间戳-秒]` is one match whose inner text starts with `x`, so the inner
    `[` opens nothing and the whole text is reinserted.
  */
  lemma NestedBracketSwallowed(e: string, env: nat -> Sample, counters: Counters, accs: Accumulators)
    requires e == "x [" + SecondsExpr
    ensures ProcessTemplate("[" + e + "]", env, counters, accs) == Rendered("[" + e + "]", counters, accs)
  {
    assert Plain(e);
    assert e[0] == 'x' && !IsSpace(e[|e| - 1]);
    assert Trimmed(e);
    NotRecognised(e);
    SingleMatchDeclined(e);
    DeclinedTemplateUnchanged("[" + e + "]", env, counters, accs);
  }

  /** A template that is one match of plain, unaccepted inner text has every visited match declined. */
  lemma SingleMatchDeclined(e: string)
    requires Plain(e) && !Recognised(Trim(e))
    ensures AllDeclined("[" + e + "]")
  {
    var t := "[" + e + "]";
    var c := |e| + 1;
    assert forall k :: 1 <= k < c ==> t[k] == e[k - 1];
    assert ClosesAt(t, 1, c);
    assert CloseAt(t, 1) == Some(c);
    assert t[1..c] == e;
    assert NextScan(t, 0) == |t|;
  }

  /** An expression no handler accepts: it starts with none of the keywords' first characters. */
  lemma NotRecognised(e: string)
    requires e == [] || (e[0] != '当' && e[0] != '随' && e[0] != '日' && e[0] != '自' && e[0] != '累')
    ensures !Recognised(e)
  {
    assert SecondsExpr[0] == MillisecondsExpr[0] == '当';
    assert IntegerPrefix[0] == FloatPrefix[0] == '随';
    assert DatePrefix[0] == '日' && AutoIdPrefix[0] == '自' && AccumulatorPrefix[0] == '累';
  }

  /** A single match of plain inner text that no handler accepts is reinserted. */
  lemma SingleDeclined(e: string, env: nat -> Sample, counters: Counters, accs: Accumulators)
    requires Plain(e) && !Recognised(Trim(e))
    ensures ProcessTemplate("[" + e + "]", env, counters, accs) == Rendered("[" + e + "]", counters, accs)
  {
    var st := CallState(counters, accs, map[]);
    SingleMatch(e, Callback(env), st);
    CallbackDeclines(env, 0, "[" + e + "]", e);
  }

  /** A trimmed plain expression that starts with no keyword's first character is reinserted as it is. */
  lemma UnknownExpressionPassesThrough(e: string, env: nat -> Sample, counters: Counters, accs: Accumulators)
    requires Plain(e) && Trimmed(e)
    requires e == [] || (e[0] != '当' && e[0] != '随' && e[0] != '日' && e[0] != '自' && e[0] != '累')
    ensures ProcessTemplate("[" + e + "]", env, counters, accs) == Rendered("[" + e + "]", counters, accs)
  {
    NotRecognised(e);
    SingleDeclined(e, env, counters, accs);
  }

  /** `[not-a-real-expr]` is reinserted as it is. */
  lemma NotARealExprPassesThrough(e: string, env: nat -> Sample, counters: Counters, accs: Accumulators)
    requires e == "not-a-real-expr"
    ensures ProcessTemplate("[" + e + "]", env, counters, accs) == Rendered("[" + e + "]", counters, accs)
  {
    assert Trimmed(e);
    UnknownExpressionPassesThrough(e, env, counters, accs);
  }

  /** `[]` is reinserted as it is. */
  lemma EmptyBracketsPassThrough(env: nat -> Sample, counters: Counters, accs: Accumulators)
    ensures ProcessTemplate("[]", env, counters, accs) == Rendered("[]", counters, accs)
  {
    assert "[" + [] + "]" == "[]";
    assert !Recognised(Trim([])) by {
      NotRecognised(Trim([]));
    }
    SingleDeclined([], env, counters, accs);
  }

  /**
    A `[` whose `]` is on a later line is no match: the text is copied as it is, even
    when the expression inside would be accepted.
  */
  lemma LineBreakEndsMatch(e: string, env: nat -> Sample, counters: Counters, accs: Accumulators)
    requires forall k :: 0 <= k < |e| ==> e[k] != ']'
    ensures ProcessTemplate("[" + e + "\n]", env, counters, accs) == Rendered("[" + e + "\n]", counters, accs)
  {
    var t := "[" + e + "\n]";
    var n := |e| + 1;
    assert t[n] == '\n' && t[n + 1] == ']';
    assert forall k :: 1 <= k < n ==> t[k] == e[k - 1];
    forall i | 0 <= i < |t| ensures UnrecognisedAt(t, i) {
      if t[i] == '[' {
        LineEndsFirst(t, i + 1, n);
      }
    }
    EveryBracketUnrecognised(t, 0);
    DeclinedTemplateUnchanged(t, env, counters, accs);
  }

  // ---------------------------------------------------------------- auto-increment and accumulator renders

  lemma CallbackAutoIncrement(env: nat -> Sample, i: nat, matched: string, inner: string, st: CallState)
    requires ParseAutoIncrement(Trim(inner)).Some?
    ensures var o := AutoIncrement(ParseAutoIncrement(Trim(inner)).value, st.counters, st.cache);
            Callback(env)(i, matched, inner, st) == (IntToString(o.id), CallState(o.counters, st.accumulators, o.cache))
  {
    var o := AutoIncrement(ParseAutoIncrement(Trim(inner)).value, st.counters, st.cache);
    ResolveAutoIncrementExpr(inner, env(i), st.counters, st.accumulators, st.cache);
    assert Replacement(Some(IntV(o.id)), matched) == IntToString(o.id);
    CallbackResolves(env, i, matched, inner, st);
  }

  lemma CallbackAccumulator(env: nat -> Sample, i: nat, matched: string, inner: string, st: CallState)
    requires ParseAccumulator(Trim(inner)).Some?
    ensures var step := Accumulate(ParseAccumulator(Trim(inner)).value, st.accumulators, env(i).random);
            Callback(env)(i, matched, inner, st) == (ToFixed(step.0, 2), CallState(st.counters, step.1, st.cache))
  {
    var k := ParseAccumulator(Trim(inner)).value;
    var step := Accumulate(k, st.accumulators, env(i).random);
    ResolveAccumulatorExpr(inner, env(i), st.counters, st.accumulators, st.cache);
    CallbackOf(env, i, matched, inner, st, Resolution(Some(FixedV(step.0, 2)), st.counters, step.1, st.cache));
    ReplacementFixed(step.0, matched);
  }

  /** The callback's result, given what `Resolve` returns for the match. */
  lemma CallbackOf(env: nat -> Sample, i: nat, matched: string, inner: string, st: CallState, r: Resolution)
    requires Resolve(inner, env(i), st.counters, st.accumulators, st.cache) == r
    ensures Callback(env)(i, matched, inner, st) == (Replacement(r.value, matched), CallState(r.counters, r.accumulators, r.cache))
  {
    CallbackResolves(env, i, matched, inner, st);
  }

  lemma ReplacementFixed(x: real, matched: string)
    ensures Replacement(Some(FixedV(x, 2)), matched) == ToFixed(x, 2)
  {
  }

  /** A template that is one auto-increment expression renders the id the counter yields. */
  lemma SingleIdRender(e: string, env: nat -> Sample, counters: Counters, accs: Accumulators)
    requires Plain(e) && ParseAutoIncrement(Trim(e)).Some?
    ensures var o := AutoIncrement(ParseAutoIncrement(Trim(e)).value, counters, map[]);
            ProcessTemplate("[" + e + "]", env, counters, accs) == Rendered(IntToString(o.id), o.counters, accs)
  {
    var st := CallState(counters, accs, map[]);
    SingleMatch(e, Callback(env), st);
    CallbackAutoIncrement(env, 0, "[" + e + "]", e, st);
  }

  /** One auto-increment step for `req` from `st`: the id as text and the state after it. */
  function IdStep(req: AutoIdRequest, st: CallState): (string, CallState) {
    var o := AutoIncrement(req, st.counters, st.cache);
    (IntToString(o.id), CallState(o.counters, st.accumulators, o.cache))
  }

  /** `f` resolves the match at `i` as the auto-increment request `req`, whatever the state. */
  ghost predicate AdvancesId(f: Replacer, i: nat, matched: string, inner: string, req: AutoIdRequest) {
    forall st {:trigger f(i, matched, inner, st)} :: f(i, matched, inner, st) == IdStep(req, st)
  }

  lemma CallbackAdvancesId(env: nat -> Sample, i: nat, matched: string, inner: string)
    requires ParseAutoIncrement(Trim(inner)).Some?
    ensures AdvancesId(Callback(env), i, matched, inner, ParseAutoIncrement(Trim(inner)).value)
  {
    forall st ensures Callback(env)(i, matched, inner, st) == IdStep(ParseAutoIncrement(Trim(inner)).value, st) {
      CallbackAutoIncrement(env, i, matched, inner, st);
    }
  }

  /** `[e] [e]` with `e` resolved as one request: the first step's id twice, and its state. */
  lemma RepeatedIdWith(e: string, f: Replacer, req: AutoIdRequest, st: CallState)
    requires Plain(e)
    requires AdvancesId(f, 0, "[" + e + "]", e, req) && AdvancesId(f, |e| + 3, "[" + e + "]", e, req)
    ensures var m := "[" + e + "]";
            var (x, st1) := IdStep(req, st);
            ReplaceFrom(m + " " + m, 0, f, st) == (x + " " + x, st1)
  {
    var m := "[" + e + "]";
    TwoMatches(e, f, st);
    var first := f(0, m, e, st);
    assert first == IdStep(req, st);
    assert f(|e| + 3, m, e, first.1) == IdStep(req, first.1);
    AutoIncrementIdempotent(req, st.counters, st.cache);
  }

  /**
    Within one render a repeated auto-increment expression yields the same id twice
    and advances its counter once. `CallbackAdvancesId` shows that the callback resolves
    every auto-increment expression `e` with request `req` this way.
  */
  lemma RepeatedIdInOneRender(e: string, req: AutoIdRequest, env: nat -> Sample, counters: Counters, accs: Accumulators)
    requires Plain(e)
    requires AdvancesId(Callback(env), 0, "[" + e + "]", e, req) && AdvancesId(Callback(env), |e| + 3, "[" + e + "]", e, req)
    ensures var m := "[" + e + "]";
            var o := AutoIncrement(req, counters, map[]);
            ProcessTemplate(m + " " + m, env, counters, accs) == Rendered(IntToString(o.id) + " " + IntToString(o.id), o.counters, accs)
  {
    RepeatedIdWith(e, Callback(env), req, CallState(counters, accs, map[]));
  }

  /** One accumulator step for `k` with the draw `u` from `st`: the total as text and the state after it. */
  function AccumulatorStep(k: AccumulatorKey, u: Unit, st: CallState): (string, CallState)
    requires k.minStep <= k.maxStep
  {
    var (total, next) := Accumulate(k, st.accumulators, u);
    (ToFixed(total, 2), CallState(st.counters, next, st.cache))
  }

  /** `f` resolves the match at `i` as one step of the running total `k` with the draw `u`, whatever the state. */
  ghost predicate AddsStep(f: Replacer, i: nat, matched: string, inner: string, k: AccumulatorKey, u: Unit)
    requires k.minStep <= k.maxStep
  {
    forall st {:trigger f(i, matched, inner, st)} :: f(i, matched, inner, st) == AccumulatorStep(k, u, st)
  }

  lemma CallbackAddsStep(env: nat -> Sample, i: nat, matched: string, inner: string)
    requires ParseAccumulator(Trim(inner)).Some?
    ensures AddsStep(Callback(env), i, matched, inner, ParseAccumulator(Trim(inner)).value, env(i).random)
  {
    forall st ensures Callback(env)(i, matched, inner, st) == AccumulatorStep(ParseAccumulator(Trim(inner)).value, env(i).random, st) {
      CallbackAccumulator(env, i, matched, inner, st);
    }
  }

  /** `[e] [e]` with `e` resolved as steps of one running total: two steps, the second from where the first left it. */
  lemma RepeatedAccumulatorWith(e: string, f: Replacer, k: AccumulatorKey, u0: Unit, u1: Unit, st: CallState)
    requires Plain(e) && k.minStep <= k.maxStep
    requires AddsStep(f, 0, "[" + e + "]", e, k, u0) && AddsStep(f, |e| + 3, "[" + e + "]", e, k, u1)
    ensures var m := "[" + e + "]";
            var first := Accumulate(k, st.accumulators, u0);
            var second := Accumulate(k, first.1, u1);
            ReplaceFrom(m + " " + m, 0, f, st) == (ToFixed(first.0, 2) + " " + ToFixed(second.0, 2), CallState(st.counters, second.1, st.cache))
  {
    var m := "[" + e + "]";
    TwoMatches(e, f, st);
    var first := f(0, m, e, st);
    assert first == AccumulatorStep(k, u0, st);
    assert f(|e| + 3, m, e, first.1) == AccumulatorStep(k, u1, first.1);
  }

  /**
    Within one render every occurrence of an accumulator expression takes its own step:
    the two results are the totals after one and after two draws. `CallbackAddsStep`
    shows that the callback resolves every accumulator expression `e` with key `k` this way.
  */
  lemma RepeatedAccumulatorInOneRender(e: string, k: AccumulatorKey, env: nat -> Sample, counters: Counters, accs: Accumulators)
    requires Plain(e) && k.minStep <= k.maxStep
    requires AddsStep(Callback(env), 0, "[" + e + "]", e, k, env(0).random)
    requires AddsStep(Callback(env), |e| + 3, "[" + e + "]", e, k, env(|e| + 3).random)
    ensures var m := "[" + e + "]";
            var first := Accumulate(k, accs, env(0).random);
            var second := Accumulate(k, first.1, env(|e| + 3).random);
            ProcessTemplate(m + " " + m, env, counters, accs) == Rendered(ToFixed(first.0, 2) + " " + ToFixed(second.0, 2), counters, second.1)
  {
    RepeatedAccumulatorWith(e, Callback(env), k, env(0).random, env(|e| + 3).random, CallState(counters, accs, map[]));
  }

  // ---------------------------------------------------------------- the context object

  /**
    After the text `done` has been produced and the scan has reached `i` in state `st`,
    the rest of the scan completes `whole`: its text and the context it leaves.
  */
  ghost predicate ScannedUpTo(t: string, i: nat, f: Replacer, st: CallState, done: string, whole: (string, CallState))
    requires i <= |t|
  {
    var rest := ReplaceFrom(t, i, f, st);
    done + rest.0 == whole.0 && rest.1.counters == whole.1.counters && rest.1.accumulators == whole.1.accumulators
  }

  /**
    A match resolved by the handlers into `piece`, leaving `st'`, moves the scan of
    `Callback(env)` past the match.
  */
  lemma ScanMatch(t: string, i: nat, env: nat -> Sample, st: CallState, piece: string, st': CallState, done: string, whole: (string, CallState))
    requires i < |t| && t[i] == '[' && CloseAt(t, i + 1).Some?
    requires var j := CloseAt(t, i + 1).value;
             var r := Resolve(t[i + 1..j], env(i), st.counters, st.accumulators, st.cache);
             piece == Replacement(r.value, t[i..j + 1]) && st' == CallState(r.counters, r.accumulators, r.cache)
    requires ScannedUpTo(t, i, Callback(env), st, done, whole)
    ensures ScannedUpTo(t, CloseAt(t, i + 1).value + 1, Callback(env), st', done + piece, whole)
  {
    var j := CloseAt(t, i + 1).value;
    CallbackResolves(env, i, t[i..j + 1], t[i + 1..j], st);
    MatchAt(t, i, Callback(env), st);
    var rest := ReplaceFrom(t, j + 1, Callback(env), st');
    assert (done + piece) + rest.0 == done + (piece + rest.0);
  }

  /** Any other character is copied and moves the scan one step. */
  lemma ScanCopy(t: string, i: nat, f: Replacer, st: CallState, done: string, whole: (string, CallState))
    requires i < |t| && (t[i] != '[' || CloseAt(t, i + 1).None?)
    requires ScannedUpTo(t, i, f, st, done, whole)
    ensures ScannedUpTo(t, i + 1, f, st, done + [t[i]], whole)
  {
    CopyAt(t, i, f, st);
    var rest := ReplaceFrom(t, i + 1, f, st);
    assert (done + [t[i]]) + rest.0 == done + ([t[i]] + rest.0);
  }

  /**
    The caller-owned context: the auto-increment counters and the running totals,
    updated in place by each render and kept between renders.
  */
  class RenderState {
    var counters: Counters
    var accumulators: Accumulators

    /** `context = {}`: both maps empty. */
    constructor()
      ensures counters == map[] && accumulators == map[]
    {
      counters := map[];
      accumulators := map[];
    }

    /**
      The counter update of `_handleAutoIncrementId` for a parsed request: a cached
      request returns its id; otherwise the key's counter is replaced in place and the
      id cached for the rest of the render.
    */
    method AdvanceId(req: AutoIdRequest, cache: AutoIdCache) returns (id: int, cache': AutoIdCache)
      modifies this
      ensures var o := AutoIncrement(req, old(counters), cache);
              id == o.id && cache' == o.cache && counters == o.counters
      ensures accumulators == old(accumulators)
    {
      if req in cache {
        return cache[req], cache;
      }
      if req.key !in counters || counters[req.key].initialStartOfSequence != req.start {
        id := req.start;
      } else {
        id := counters[req.key].currentValue + counters[req.key].stepUsedForCurrent;
      }
      counters := counters[req.key := Counter(id, req.step, req.start)];
      cache' := cache[req := id];
    }

    /** The update of `_handleAccumulatedValue` for a parsed key: the running total grows by one drawn step. */
    method AddStep(k: AccumulatorKey, u: Unit) returns (total: real)
      requires k.minStep <= k.maxStep
      modifies this
      ensures var step := Accumulate(k, old(accumulators), u);
              total == step.0 && accumulators == step.1
      ensures counters == old(counters)
    {
      if k !in accumulators {
        accumulators := accumulators[k := k.start];
      }
      var randomStep := DrawReal(k.minStep, k.maxStep, u);
      accumulators := accumulators[k := accumulators[k] + randomStep];
      total := accumulators[k];
    }

    /**
      The callback of `processTemplate` on one match: the handlers in order, the first
      result wins, and a declined match is put back as it was.
    */
    method ResolveMatch(matched: string, inner: string, s: Sample, cache: AutoIdCache) returns (replacement: string, cache': AutoIdCache)
      modifies this
      ensures var r := Resolve(inner, s, old(counters), old(accumulators), cache);
              && replacement == Replacement(r.value, matched)
              && cache' == r.cache && counters == r.counters && accumulators == r.accumulators
    {
      var e := Trim(inner);
      var v := ResolveStateless(e, s);
      if v.Some? {
        ResolvePlainExpr(inner, s, counters, accumulators, cache);
        return Show(v.value), cache;
      }
      var request := ParseAutoIncrement(e);
      if request.Some? {
        ResolveAutoIncrementExpr(inner, s, counters, accumulators, cache);
        var id;
        id, cache' := AdvanceId(request.value, cache);
        return IntToString(id), cache';
      }
      var key := ParseAccumulator(e);
      if key.Some? {
        ResolveAccumulatorExpr(inner, s, counters, accumulators, cache);
        var total := AddStep(key.value, s.random);
        return ToFixed(total, 2), cache;
      }
      ResolveDeclinedExpr(inner, s, counters, accumulators, cache);
      return matched, cache;
    }

    /**
      `processTemplate(template, this)`: the template with every match replaced and the
      context updated in place; the per-call cache lives only for this call.
    */
    method Render(template: string, env: nat -> Sample) returns (result: string)
      modifies this
      ensures var r := ProcessTemplate(template, env, old(counters), old(accumulators));
              result == r.text && counters == r.counters && accumulators == r.accumulators
    {
      var cache: AutoIdCache := map[];
      ghost var f := Callback(env);
      ghost var whole := ReplaceFrom(template, 0, f, CallState(counters, accumulators, cache));
      result := [];
      var i := 0;
      while i < |template|
        invariant i <= |template|
        invariant ScannedUpTo(template, i, f, CallState(counters, accumulators, cache), result, whole)
        decreases |template| - i
      {
        var close := if template[i] == '[' then CloseAt(template, i + 1) else None;
        ghost var st := CallState(counters, accumulators, cache);
        if close.Some? {
          var j := close.value;
          var replacement;
          replacement, cache := ResolveMatch(template[i..j + 1], template[i + 1..j], env(i), cache);
          ScanMatch(template, i, env, st, replacement, CallState(counters, accumulators, cache), result, whole);
          result := result + replacement;
          i := j + 1;
        } else {
          ScanCopy(template, i, f, st, result, whole);
          result := result + [template[i]];
          i := i + 1;
        }
      }
    }
  }
}
