/** `mergeOpenApiConfig(config, overrides)` of the generated client
    (src/client/core/OpenAPI.js): a copy of `config` in which an override
    `_key` replaces the entry `KEY`, when `config` has one. The copy is a
    new value, so `config` is never changed. Upper-casing is modelled for
    ASCII letters only. */
module OpenApi {
  import opened Types

  /** One entry of `Object.entries(overrides)`, in insertion order. */
  datatype Override<V> = Override(key: string, value: V)

  /** `c.toLocaleUpperCase()` for one character, ASCII letters only. */
  function UpperChar(c: char): char
  {
    if 'a' <= c <= 'z' then (c as int - 32) as char else c
  }

  function Upper(s: string): (u: string)
    ensures |u| == |s|
    ensures forall i :: 0 <= i < |s| ==> u[i] == UpperChar(s[i])
  {
    if |s| == 0 then "" else [UpperChar(s[0])] + Upper(s[1..])
  }

  /** Only keys that start with `_` take part. */
  predicate IsOverrideKey(key: string)
  {
    |key| > 0 && key[0] == '_'
  }

  /** The config key an override key aims at: `key.slice(1).toLocaleUpperCase()`. */
  function Target(key: string): string
    requires IsOverrideKey(key)
  {
    Upper(key[1..])
  }

  /** The body of the `forEach`: replace the target entry when it exists. */
  function ApplyOne<V>(merged: map<string, V>, o: Override<V>): (r: map<string, V>)
    ensures r.Keys == merged.Keys
  {
    if IsOverrideKey(o.key) && Target(o.key) in merged then merged[Target(o.key) := o.value]
    else merged
  }

  /** The overrides applied in order to the copy `merged`. */
  function ApplyAll<V>(merged: map<string, V>, overrides: seq<Override<V>>): (r: map<string, V>)
    ensures r.Keys == merged.Keys
    decreases |overrides|
  {
    if |overrides| == 0 then merged
    else ApplyAll(ApplyOne(merged, overrides[0]), overrides[1..])
  }

  /** `mergeOpenApiConfig`: the result has exactly the keys of `config`. */
  function MergeOpenApiConfig<V>(config: map<string, V>, overrides: seq<Override<V>>): (r: map<string, V>)
    ensures r.Keys == config.Keys
  {
    ApplyAll(config, overrides)
  }

  /** The value the last override aimed at `k` sets, if any: the reference
      reading of "later entries win". */
  function LastOverride<V>(overrides: seq<Override<V>>, k: string): Option<V>
  {
    if |overrides| == 0 then None
    else
      var o := overrides[|overrides| - 1];
      if IsOverrideKey(o.key) && Target(o.key) == k then Some(o.value)
      else LastOverride(overrides[..|overrides| - 1], k)
  }

  /** The value `k` has after the merge, by the reference reading. */
  function Expected<V>(config: map<string, V>, overrides: seq<Override<V>>, k: string): V
    requires k in config
  {
    match LastOverride(overrides, k)
    case Some(v) => v
    case None => config[k]
  }

  /** The loop applied to an already merged map: keys whose last override
      exists take its value, the rest keep the value they had. */
  lemma {:induction false} ApplyAllReference<V>(merged: map<string, V>, overrides: seq<Override<V>>, k: string)
    requires k in merged
    ensures ApplyAll(merged, overrides)[k] == Expected(merged, overrides, k)
    decreases |overrides|
  {
    if |overrides| > 0 {
      var last := overrides[|overrides| - 1];
      var init := overrides[..|overrides| - 1];
      ApplyAllSnoc(merged, init, last);
      assert init + [last] == overrides;
      ApplyAllReference(merged, init, k);
    }
  }

  /** Applying one more override at the end is one more `ApplyOne`. */
  lemma {:induction false} ApplyAllSnoc<V>(merged: map<string, V>, init: seq<Override<V>>, last: Override<V>)
    ensures ApplyAll(merged, init + [last]) == ApplyOne(ApplyAll(merged, init), last)
    decreases |init|
  {
    if |init| == 0 {
      assert init + [last] == [last];
    } else {
      assert (init + [last])[1..] == init[1..] + [last];
      ApplyAllSnoc(ApplyOne(merged, init[0]), init[1..], last);
    }
  }

  /** The merge agrees with the reference reading on every key: a key
      keeps its `config` value unless an `_`-prefixed override aims at it,
      in which case the last such override wins. */
  lemma MergeMatchesReference<V>(config: map<string, V>, overrides: seq<Override<V>>)
    ensures forall k :: k in config ==> MergeOpenApiConfig(config, overrides)[k] == Expected(config, overrides, k)
  {
    forall k | k in config
      ensures MergeOpenApiConfig(config, overrides)[k] == Expected(config, overrides, k)
    {
      ApplyAllReference(config, overrides, k);
    }
  }

  /** Overrides without the `_` prefix are ignored: with only such
      overrides, the result is `config` itself. */
  lemma {:induction false} PlainKeysIgnored<V>(config: map<string, V>, overrides: seq<Override<V>>)
    requires forall i :: 0 <= i < |overrides| ==> !IsOverrideKey(overrides[i].key)
    ensures MergeOpenApiConfig(config, overrides) == config
    decreases |overrides|
  {
    if |overrides| > 0 {
      PlainKeysIgnored(config, overrides[1..]);
    }
  }
}
