/** `EnvBase.once` and the process-wide `EnvBase._cache` it fills: the result
    of a decorated method is computed once per (env class, enclosing env) and
    served from the cache afterwards. The cache is threaded through as a value. */
module OnceCache {
  import opened Wrappers
  import opened EnvSpecs
  import opened Envs

  /** The key `once` builds: `(self.__class__, self.within)`. */
  datatype CacheKey = CacheKey(cls: EnvClass, within: Option<Env>)

  function KeyOf(e: Env): CacheKey {
    CacheKey(e.cls, e.within)
  }

  /** Comparing an enclosing env needs its spec to be well-formed. */
  predicate KeyValid(k: CacheKey) {
    k.within.Some? ==> Valid(k.within.value.spec)
  }

  /** Tuple `==` on keys: equal classes, and enclosing envs that are both
      `None` or equal under `EnvBase.__eq__`. */
  predicate KeyEq(h: Hooks, a: CacheKey, b: CacheKey)
    requires KeyValid(a) && KeyValid(b)
  {
    && a.cls == b.cls
    && (a.within.None? <==> b.within.None?)
    && (a.within.Some? && b.within.Some? ==> EnvEq(h, a.within.value, b.within.value))
  }

  lemma KeyEqIsEquivalence(h: Hooks, a: CacheKey, b: CacheKey, c: CacheKey)
    requires KeyValid(a) && KeyValid(b) && KeyValid(c)
    ensures KeyEq(h, a, a)
    ensures KeyEq(h, a, b) ==> KeyEq(h, b, a)
    ensures KeyEq(h, a, b) && KeyEq(h, b, c) ==> KeyEq(h, a, c)
  {
    if a.within.Some? && b.within.Some? && c.within.Some? {
      EnvEqIsEquivalence(h, a.within.value, b.within.value, c.within.value);
    } else if a.within.Some? && b.within.Some? {
      EnvEqIsEquivalence(h, a.within.value, b.within.value, a.within.value);
    } else if a.within.Some? {
      EnvEqIsEquivalence(h, a.within.value, a.within.value, a.within.value);
    }
  }

  /** One dictionary entry. */
  datatype Entry<V> = Entry(key: CacheKey, value: V)

  /** The dictionary's entries in insertion order. */
  type Cache<V> = seq<Entry<V>>

  predicate CacheValid<V>(c: Cache<V>) {
    forall i | 0 <= i < |c| :: KeyValid(c[i].key)
  }

  /** Dictionary lookup: the value of the first entry whose key equals `k`. */
  function Find<V>(h: Hooks, c: Cache<V>, k: CacheKey): Option<V>
    requires CacheValid(c) && KeyValid(k)
    decreases |c|
  {
    if |c| == 0 then None
    else if KeyEq(h, c[0].key, k) then Some(c[0].value)
    else Find(h, c[1..], k)
  }

  lemma {:induction false} FindAppend<V>(h: Hooks, c: Cache<V>, x: Entry<V>, k: CacheKey)
    requires CacheValid(c) && KeyValid(x.key) && KeyValid(k)
    ensures CacheValid(c + [x])
    ensures Find(h, c + [x], k) ==
              if Find(h, c, k).Some? then Find(h, c, k)
              else if KeyEq(h, x.key, k) then Some(x.value)
              else None
    decreases |c|
  {
    if |c| == 0 {
      assert [x][1..] == [];
    } else {
      assert (c + [x])[1..] == c[1..] + [x];
      FindAppend(h, c[1..], x, k);
    }
  }

  /** Equal keys find the same entry. */
  lemma {:induction false} FindRespectsKeyEq<V>(h: Hooks, c: Cache<V>, k1: CacheKey, k2: CacheKey)
    requires CacheValid(c) && KeyValid(k1) && KeyValid(k2)
    requires KeyEq(h, k1, k2)
    ensures Find(h, c, k1) == Find(h, c, k2)
    decreases |c|
  {
    if |c| > 0 {
      KeyEqIsEquivalence(h, c[0].key, k1, k2);
      KeyEqIsEquivalence(h, c[0].key, k2, k1);
      KeyEqIsEquivalence(h, k1, k2, k1);
      FindRespectsKeyEq(h, c[1..], k1, k2);
    }
  }

  /** A method wrapped by `once`, called on `e` with the cache `c`: on a hit
      the stored value, with `func` not called and the cache unchanged; on a
      miss `func(e)`, stored under the env's key, with every entry for a
      different key left as it was. */
  function Once<V>(h: Hooks, c: Cache<V>, e: Env, func: Env -> V): (r: (V, Cache<V>))
    requires CacheValid(c) && KeyValid(KeyOf(e))
    ensures CacheValid(r.1)
    ensures Find(h, c, KeyOf(e)).Some? ==> r.0 == Find(h, c, KeyOf(e)).value && r.1 == c
    ensures Find(h, c, KeyOf(e)).None? ==> r.0 == func(e)
    ensures Find(h, r.1, KeyOf(e)) == Some(r.0)
    ensures forall k | KeyValid(k) && !KeyEq(h, KeyOf(e), k) :: Find(h, r.1, k) == Find(h, c, k)
  {
    var key := KeyOf(e);
    var hit := Find(h, c, key);
    if hit.Some? then
      (hit.value, c)
    else
      var value := func(e);
      var c' := c + [Entry(key, value)];
      KeyEqIsEquivalence(h, key, key, key);
      FindAppend(h, c, Entry(key, value), key);
      assert forall k | KeyValid(k) && !KeyEq(h, key, k) :: Find(h, c', k) == Find(h, c, k) by {
        forall k | KeyValid(k) && !KeyEq(h, key, k)
          ensures Find(h, c', k) == Find(h, c, k)
        {
          FindAppend(h, c, Entry(key, value), k);
        }
      }
      (value, c')
  }

  /** Calling a `once` method again returns the first result and leaves the
      cache alone, whatever function is passed the second time. */
  lemma OnceSecondCallHits<V>(h: Hooks, c: Cache<V>, e: Env, first: Env -> V, second: Env -> V)
    requires CacheValid(c) && KeyValid(KeyOf(e))
    ensures Once(h, Once(h, c, e, first).1, e, second) == Once(h, c, e, first)
  {
  }

  /** The result is shared by every env of the same class inside an equal
      enclosing env, whatever its spec. */
  lemma OnceSharedAcrossSpecs<V>(h: Hooks, c: Cache<V>, a: Env, b: Env, fa: Env -> V, fb: Env -> V)
    requires CacheValid(c) && KeyValid(KeyOf(a)) && KeyValid(KeyOf(b))
    requires KeyEq(h, KeyOf(a), KeyOf(b))
    ensures Once(h, Once(h, c, a, fa).1, b, fb).0 == Once(h, c, a, fa).0
  {
    var r := Once(h, c, a, fa);
    FindRespectsKeyEq(h, r.1, KeyOf(a), KeyOf(b));
  }
}
