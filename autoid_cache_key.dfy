/**
  The per-call cache of `_handleAutoIncrementId` as the source writes it: the cache is a
  plain object indexed by the text `autoid-${key}-${start}-${step}`. A key may itself
  contain `-` and a start or step may be negative, so two different requests can spell
  the same text; the second one then takes the first one's id. Module `Handlers` keys
  its cache by the request itself, which is what the cache is meant to identify.
*/
module AutoIdCacheKey {
  import opened JsText
  import opened Handlers

  /** The cache key as the source spells it. */
  function CacheKeyText(req: AutoIdRequest): string {
    "autoid-" + req.key + "-" + IntToString(req.start) + "-" + IntToString(req.step)
  }

  type TextCache = map<string, int>

  datatype TextOutcome = TextOutcome(id: int, counters: Counters, cache: TextCache)

  /** One auto-increment resolution with the cache indexed by the spelled key. */
  function AutoIncrementAsWritten(req: AutoIdRequest, counters: Counters, cache: TextCache): (r: TextOutcome)
    ensures CacheKeyText(req) in r.cache && r.cache[CacheKeyText(req)] == r.id
    ensures CacheKeyText(req) in cache ==> r == TextOutcome(cache[CacheKeyText(req)], counters, cache)
    ensures CacheKeyText(req) !in cache ==> r.id == NextId(req, counters).0
  {
    var t := CacheKeyText(req);
    if t in cache then TextOutcome(cache[t], counters, cache)
    else
      var (id, c) := NextId(req, counters);
      TextOutcome(id, counters[req.key := c], cache[t := id])
  }

  /** `autoid-x--1-3` is the key of both `自增ID x- 1 3` and `自增ID x -1 3`. */
  lemma CacheKeysCollide(a: AutoIdRequest, b: AutoIdRequest)
    requires a == AutoIdRequest("x-", 1, 3) && b == AutoIdRequest("x", -1, 3)
    ensures a != b && CacheKeyText(a) == CacheKeyText(b)
  {
    assert IntToString(1) == "1" && IntToString(-1) == "-1" && IntToString(3) == "3";
  }

  /** A text without `-`, a `-`, then any text: the first `-` marks where the first text ends. */
  lemma SplitAtHyphen(k1: string, r1: string, k2: string, r2: string)
    requires '-' !in k1 && '-' !in k2
    requires k1 + "-" + r1 == k2 + "-" + r2
    ensures k1 == k2 && r1 == r2
  {
    var t := k1 + "-" + r1;
    assert t[|k1|] == '-' && t[|k2|] == '-';
    assert |k1| == |k2|;
    assert k1 == t[..|k1|] == k2;
    assert r1 == t[|k1| + 1..] == r2;
  }

  /** The spelling of a number followed by `-` and any text: the spelling ends at the `-`. */
  lemma SplitNumberAtHyphen(x: int, r1: string, y: int, r2: string)
    requires IntToString(x) + "-" + r1 == IntToString(y) + "-" + r2
    ensures x == y && r1 == r2
  {
    var sx, sy := IntToString(x), IntToString(y);
    var t := sx + "-" + r1;
    assert t[0] == sx[0] && t[0] == sy[0];
    if x < 0 {
      assert y < 0;
      var dx, dy := sx[1..], sy[1..];
      assert '-' !in dx && '-' !in dy;
      assert dx + "-" + r1 == t[1..] == dy + "-" + r2;
      SplitAtHyphen(dx, r1, dy, r2);
      assert sx == [sx[0]] + dx && sy == [sy[0]] + dy;
    } else {
      assert y >= 0;
      assert '-' !in sx && '-' !in sy;
      SplitAtHyphen(sx, r1, sy, r2);
    }
    IntToStringInjective(x, y);
  }

  /**
    The key text tells two requests apart when neither key contains `-`: a collision
    such as `CacheKeysCollide` needs a `-` in a key.
  */
  lemma HyphenFreeKeysKept(a: AutoIdRequest, b: AutoIdRequest)
    requires '-' !in a.key && '-' !in b.key
    requires CacheKeyText(a) == CacheKeyText(b)
    ensures a == b
  {
    KeyTextTail(a);
    KeyTextTail(b);
    var sa2, sb2 := IntToString(a.step), IntToString(b.step);
    SplitAtHyphen(a.key, IntToString(a.start) + "-" + sa2, b.key, IntToString(b.start) + "-" + sb2);
    SplitNumberAtHyphen(a.start, sa2, b.start, sb2);
    IntToStringInjective(a.step, b.step);
  }

  /** After `autoid-`, the key text is the key, `-`, then the two numbers joined by `-`. */
  lemma KeyTextTail(req: AutoIdRequest)
    ensures |CacheKeyText(req)| >= 7
    ensures CacheKeyText(req)[7..] == req.key + "-" + (IntToString(req.start) + "-" + IntToString(req.step))
  {
  }

  /**
    In one render, `自增ID x -1 3` after `自增ID x- 1 3` is given 1, the other
    sequence's id, where on its own it starts its sequence at -1.
  */
  lemma AsWrittenSharesId(a: AutoIdRequest, b: AutoIdRequest)
    requires a == AutoIdRequest("x-", 1, 3) && b == AutoIdRequest("x", -1, 3)
    ensures var first := AutoIncrementAsWritten(a, map[], map[]);
            first.id == 1 && AutoIncrementAsWritten(b, first.counters, first.cache).id == 1
    ensures AutoIncrementAsWritten(b, map[], map[]).id == -1
  {
    CacheKeysCollide(a, b);
  }

  /**
    With the cache keyed by the request, resolving one key does not change the id
    another key is given next.
  */
  lemma SeparateKeysIndependent(a: AutoIdRequest, b: AutoIdRequest, counters: Counters, cache: AutoIdCache)
    requires a.key != b.key
    ensures var first := AutoIncrement(a, counters, cache);
            AutoIncrement(b, first.counters, first.cache).id == AutoIncrement(b, counters, cache).id
  {
  }

  /** The same two expressions, resolved by the request-keyed cache: the second starts at -1. */
  lemma CorrectedKeepsApart(a: AutoIdRequest, b: AutoIdRequest)
    requires a == AutoIdRequest("x-", 1, 3) && b == AutoIdRequest("x", -1, 3)
    ensures var first := AutoIncrement(a, map[], map[]);
            first.id == 1 && AutoIncrement(b, first.counters, first.cache).id == -1
  {
    SeparateKeysIndependent(a, b, map[], map[]);
  }
}
