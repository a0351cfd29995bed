/** Environment specifications (`EnvSpecBase`): what software environment a
    rule asks for, as a tree whose children are the optional `within` spec (the
    environment this one runs inside) and `fallback` spec (what to try instead). */
module EnvSpecs {
  import opened Wrappers

  /** `path_or_uri: Union[str, Path]`: the two alternatives never compare
      equal to each other, even with the same text. A `Path` is its segments. */
  datatype PathOrUri = Str(text: string) | PathValue(segments: seq<string>)

  /** A source-file reference (`EnvSpecSourceFile`): a path or URI, plus the
      cached local copy (a `Path`) the host fills in later (absent when
      constructed). The dataclass `==` compares both fields. */
  datatype SourceFile = SourceFile(pathOrUri: PathOrUri, cached: Option<seq<string>>)

  /** Value of a backend-declared attribute: Python's `None`, a source file,
      or any other identity datum (a version, an image name, ...). Each datum
      is named by a canonical string, and string equality stands for the
      datum's own `==` (so `1` and `1.0` get the same string). */
  datatype Value = Null | Source(file: SourceFile) | Data(value: string)

  /** A concrete spec class: its name and the attribute names its two class
      methods `identity_attributes()` and `source_path_attributes()` yield. */
  datatype SpecClass = SpecClass(
    name: string,
    identityAttributes: seq<string>,
    sourcePathAttributes: seq<string>)

  /** A spec instance: its class, its backend-declared attributes, and the
      fields `technical_init` sets: `kind`, `within`, `fallback`, `_obj_hash`. */
  datatype Spec = Spec(
    cls: SpecClass,
    attrs: map<string, Value>,
    kind: string,
    within: Option<Spec>,
    fallback: Option<Spec>,
    objHash: Option<int>)

  /** Every attribute the class declares exists on the instance (otherwise
      `getattr` raises); backends are required to guarantee this. */
  predicate Declared(s: Spec) {
    && (forall n <- s.cls.identityAttributes :: n in s.attrs)
    && (forall n <- s.cls.sourcePathAttributes :: n in s.attrs)
  }

  /** `Declared` holds at every node of the tree. */
  predicate Valid(s: Spec)
    decreases s
  {
    && Declared(s)
    && (s.within.Some? ==> Valid(s.within.value))
    && (s.fallback.Some? ==> Valid(s.fallback.value))
  }

  /** Some source-path attribute of this node itself is not `None`. */
  predicate OwnSourcePaths(s: Spec)
    requires Declared(s)
  {
    exists n <- s.cls.sourcePathAttributes :: s.attrs[n] != Null
  }

  /** `has_source_paths`: own source paths, else those of `within`, else those of `fallback`. */
  predicate HasSourcePaths(s: Spec)
    requires Valid(s)
    decreases s
  {
    || OwnSourcePaths(s)
    || (s.within.Some? && HasSourcePaths(s.within.value))
    || (s.fallback.Some? && HasSourcePaths(s.fallback.value))
  }

  /** All nodes of the tree in pre-order: the spec, then its `within` subtree,
      then its `fallback` subtree. */
  function Nodes(s: Spec): (r: seq<Spec>)
    ensures |r| > 0 && r[0] == s
    decreases s
  {
    [s]
    + (if s.within.Some? then Nodes(s.within.value) else [])
    + (if s.fallback.Some? then Nodes(s.fallback.value) else [])
  }

  /** Some node of the tree has a non-`None` source-path attribute. */
  predicate SomeNodeHasSourcePaths(s: Spec) {
    exists t <- Nodes(s) :: Declared(t) && OwnSourcePaths(t)
  }

  /** `has_source_paths` holds exactly when some node anywhere in the
      `within`/`fallback` tree has a non-`None` source-path attribute. */
  lemma {:induction false} HasSourcePathsIffSomeNode(s: Spec)
    requires Valid(s)
    ensures HasSourcePaths(s) <==> SomeNodeHasSourcePaths(s)
    decreases s
  {
    var w := if s.within.Some? then Nodes(s.within.value) else [];
    var f := if s.fallback.Some? then Nodes(s.fallback.value) else [];
    assert Nodes(s) == [s] + w + f;
    if s.within.Some? {
      HasSourcePathsIffSomeNode(s.within.value);
    }
    if s.fallback.Some? {
      HasSourcePathsIffSomeNode(s.fallback.value);
    }
    if SomeNodeHasSourcePaths(s) {
      var t :| t in Nodes(s) && Declared(t) && OwnSourcePaths(t);
      if t != s {
        assert t in w || t in f;
      }
    }
    if HasSourcePaths(s) && !OwnSourcePaths(s) {
      if s.within.Some? && HasSourcePaths(s.within.value) {
        var t :| t in w && Declared(t) && OwnSourcePaths(t);
        assert t in Nodes(s);
      } else {
        var t :| t in f && Declared(t) && OwnSourcePaths(t);
        assert t in Nodes(s);
      }
    }
  }

  // ---------------------------------------------------------------------------
  // modify_source_paths

  /** One visit of the rewrite loop to an attribute: a non-`None` value goes
      through `f`, a `None` stays `None`. */
  function Step(f: Value -> Value, v: Value): Value {
    if v != Null then f(v) else v
  }

  /** `m` visits in a row (an attribute declared `m` times is visited `m` times). */
  function Repeat(f: Value -> Value, v: Value, m: nat): Value
    decreases m
  {
    if m == 0 then v else Repeat(f, Step(f, v), m - 1)
  }

  lemma {:induction false} RepeatNull(f: Value -> Value, m: nat)
    ensures Repeat(f, Null, m) == Null
    decreases m
  {
    if m > 0 {
      RepeatNull(f, m - 1);
    }
  }

  lemma {:induction false} RepeatIdentity(f: Value -> Value, v: Value, m: nat)
    requires forall x :: f(x) == x
    ensures Repeat(f, v, m) == v
    decreases m
  {
    if m > 0 {
      RepeatIdentity(f, Step(f, v), m - 1);
    }
  }

  /** A rewrite that never turns a value into `None` keeps `None`-ness of every attribute. */
  lemma {:induction false} RepeatKeepsPresence(f: Value -> Value, v: Value, m: nat)
    requires forall x :: x != Null ==> f(x) != Null
    ensures Repeat(f, v, m) == Null <==> v == Null
    decreases m
  {
    if m > 0 {
      RepeatKeepsPresence(f, Step(f, v), m - 1);
    }
  }

  /** The loop over `source_path_attributes()` on the copied attribute store:
      each declared attribute that is not `None` is replaced by `f` of it. */
  function RewriteAttrs(attrs: map<string, Value>, names: seq<string>, f: Value -> Value): (r: map<string, Value>)
    requires forall n <- names :: n in attrs
    ensures r.Keys == attrs.Keys
    ensures forall k <- attrs :: r[k] == Repeat(f, attrs[k], multiset(names)[k])
    decreases |names|
  {
    if |names| == 0 then attrs
    else
      var n := names[0];
      var current := attrs[n];
      var next := attrs[n := Step(f, current)];
      var rest := names[1..];
      assert multiset(names) == multiset{n} + multiset(rest) by {
        assert names == [n] + rest;
      }
      var r := RewriteAttrs(next, rest, f);
      assert forall k <- attrs :: r[k] == Repeat(f, attrs[k], multiset(names)[k]) by {
        forall k <- attrs
          ensures r[k] == Repeat(f, attrs[k], multiset(names)[k])
        {
          if k == n {
            assert multiset(names)[k] == multiset(rest)[k] + 1;
          } else {
            assert multiset(names)[k] == multiset(rest)[k];
          }
        }
      }
      r
  }

  /** `r` is `s` with every node's source-path attributes rewritten by `f`, the
      same shape of `within`/`fallback` children, and nothing else changed. */
  predicate RewrittenNode(s: Spec, r: Spec, f: Value -> Value) {
    && r.cls == s.cls
    && r.kind == s.kind
    && r.objHash == s.objHash
    && r.attrs.Keys == s.attrs.Keys
    && forall k <- s.attrs :: r.attrs[k] == Repeat(f, s.attrs[k], multiset(s.cls.sourcePathAttributes)[k])
  }

  predicate Rewritten(s: Spec, r: Spec, f: Value -> Value)
    decreases s
  {
    && RewrittenNode(s, r, f)
    && s.within.Some? == r.within.Some?
    && s.fallback.Some? == r.fallback.Some?
    && (s.within.Some? ==> Rewritten(s.within.value, r.within.value, f))
    && (s.fallback.Some? ==> Rewritten(s.fallback.value, r.fallback.value, f))
  }

  /** A tree without source paths is already its own rewrite. */
  lemma {:induction false} NoSourcePathsIsRewritten(s: Spec, f: Value -> Value)
    requires Valid(s)
    requires !HasSourcePaths(s)
    ensures Rewritten(s, s, f)
    decreases s
  {
    forall k <- s.attrs
      ensures s.attrs[k] == Repeat(f, s.attrs[k], multiset(s.cls.sourcePathAttributes)[k])
    {
      if k in s.cls.sourcePathAttributes {
        assert s.attrs[k] == Null;
        RepeatNull(f, multiset(s.cls.sourcePathAttributes)[k]);
      } else {
        assert multiset(s.cls.sourcePathAttributes)[k] == 0;
      }
    }
    if s.within.Some? {
      NoSourcePathsIsRewritten(s.within.value, f);
    }
    if s.fallback.Some? {
      NoSourcePathsIsRewritten(s.fallback.value, f);
    }
  }

  /** `modify_source_paths(f)`: the receiver itself when the tree has no source
      paths; otherwise a copy whose non-`None` source-path attributes went
      through `f` and whose `within`/`fallback` were rewritten the same way. */
  function ModifySourcePaths(s: Spec, f: Value -> Value): (r: Spec)
    requires Valid(s)
    ensures Valid(r)
    ensures !HasSourcePaths(s) ==> r == s
    ensures Rewritten(s, r, f)
    decreases s
  {
    if !HasSourcePaths(s) then
      NoSourcePathsIsRewritten(s, f);
      s
    else
      var attrs := RewriteAttrs(s.attrs, s.cls.sourcePathAttributes, f);
      var within := if s.within.Some? then Some(ModifySourcePaths(s.within.value, f)) else None;
      var fallback := if s.fallback.Some? then Some(ModifySourcePaths(s.fallback.value, f)) else None;
      s.(attrs := attrs, within := within, fallback := fallback)
  }

  /** Rewriting with the identity function gives back an identical spec. */
  lemma {:induction false} ModifyIdentity(s: Spec, f: Value -> Value)
    requires Valid(s)
    requires forall v :: f(v) == v
    ensures ModifySourcePaths(s, f) == s
    decreases s
  {
    if HasSourcePaths(s) {
      var r := ModifySourcePaths(s, f);
      forall k <- s.attrs
        ensures r.attrs[k] == s.attrs[k]
      {
        RepeatIdentity(f, s.attrs[k], multiset(s.cls.sourcePathAttributes)[k]);
      }
      assert r.attrs == s.attrs;
      if s.within.Some? {
        ModifyIdentity(s.within.value, f);
      }
      if s.fallback.Some? {
        ModifyIdentity(s.fallback.value, f);
      }
    }
  }

  /** A rewrite that never yields `None` keeps `has_source_paths` as it was. */
  lemma {:induction false} ModifyKeepsHasSourcePaths(s: Spec, f: Value -> Value)
    requires Valid(s)
    requires forall v :: v != Null ==> f(v) != Null
    ensures HasSourcePaths(ModifySourcePaths(s, f)) == HasSourcePaths(s)
    decreases s
  {
    var r := ModifySourcePaths(s, f);
    if HasSourcePaths(s) {
      forall n <- s.cls.sourcePathAttributes
        ensures r.attrs[n] == Null <==> s.attrs[n] == Null
      {
        RepeatKeepsPresence(f, s.attrs[n], multiset(s.cls.sourcePathAttributes)[n]);
      }
      assert OwnSourcePaths(r) == OwnSourcePaths(s);
      if s.within.Some? {
        ModifyKeepsHasSourcePaths(s.within.value, f);
      }
      if s.fallback.Some? {
        ModifyKeepsHasSourcePaths(s.fallback.value, f);
      }
    }
  }

  /** No class in the tree declares a source-path attribute twice. */
  predicate DistinctSourcePaths(s: Spec)
    decreases s
  {
    && (forall n <- s.cls.sourcePathAttributes :: multiset(s.cls.sourcePathAttributes)[n] == 1)
    && (s.within.Some? ==> DistinctSourcePaths(s.within.value))
    && (s.fallback.Some? ==> DistinctSourcePaths(s.fallback.value))
  }

  function Compose(g: Value -> Value, f: Value -> Value): Value -> Value {
    v => g(f(v))
  }

  lemma RepeatComposesOnce(f: Value -> Value, g: Value -> Value, v: Value, m: nat)
    requires m <= 1
    requires forall x :: x != Null ==> f(x) != Null
    ensures Repeat(g, Repeat(f, v, m), m) == Repeat(Compose(g, f), v, m)
  {
  }

  /** At one node: the attributes after rewriting by `f` then `g` are those
      after rewriting once by `g` after `f`. */
  lemma ComposedNodeAttrs(s: Spec, r: Spec, r': Spec, rc: Spec, f: Value -> Value, g: Value -> Value)
    requires forall n <- s.cls.sourcePathAttributes :: multiset(s.cls.sourcePathAttributes)[n] == 1
    requires forall x :: x != Null ==> f(x) != Null
    requires RewrittenNode(s, r, f) && RewrittenNode(r, r', g) && RewrittenNode(s, rc, Compose(g, f))
    ensures r'.attrs == rc.attrs
  {
    var names := s.cls.sourcePathAttributes;
    assert r.cls == s.cls;
    assert r'.attrs.Keys == s.attrs.Keys == rc.attrs.Keys;
    forall k <- s.attrs
      ensures r'.attrs[k] == rc.attrs[k]
    {
      var m := multiset(names)[k];
      if k !in names {
        assert m == 0;
      }
      assert r.attrs[k] == Repeat(f, s.attrs[k], m);
      assert r'.attrs[k] == Repeat(g, r.attrs[k], m);
      assert rc.attrs[k] == Repeat(Compose(g, f), s.attrs[k], m);
      RepeatComposesOnce(f, g, s.attrs[k], m);
    }
  }

  /** Rewriting with `f` and then with `g` is rewriting once with `g` after `f`,
      provided `f` never turns a path into `None` and no attribute is declared twice. */
  lemma {:induction false} ModifyComposes(s: Spec, f: Value -> Value, g: Value -> Value)
    requires Valid(s) && DistinctSourcePaths(s)
    requires forall v :: v != Null ==> f(v) != Null
    ensures ModifySourcePaths(ModifySourcePaths(s, f), g) == ModifySourcePaths(s, Compose(g, f))
    decreases s
  {
    if HasSourcePaths(s) {
      var r := ModifySourcePaths(s, f);
      ModifyKeepsHasSourcePaths(s, f);
      var lhs := ModifySourcePaths(r, g);
      var rhs := ModifySourcePaths(s, Compose(g, f));
      ComposedNodeAttrs(s, r, lhs, rhs, f, g);
      if s.within.Some? {
        ModifyComposes(s.within.value, f, g);
      }
      if s.fallback.Some? {
        ModifyComposes(s.fallback.value, f, g);
      }
    }
  }

  // ---------------------------------------------------------------------------
  // __or__

  /** `a | b`: a shallow copy of `a` with `fallback` set to `b` and the cached
      object hash cleared; `a` itself is a value and stays as it was. */
  function Or(a: Spec, b: Spec): (r: Spec)
    ensures r.fallback == Some(b)
    ensures r.objHash == None
    ensures r.cls == a.cls && r.attrs == a.attrs && r.kind == a.kind && r.within == a.within
  {
    a.(fallback := Some(b), objHash := None)
  }

  /** `(a | b) | c` is `a | c`: the second `|` replaces the fallback, it does
      not extend the chain, so `b` is dropped. */
  lemma OrReplacesFallback(a: Spec, b: Spec, c: Spec)
    ensures Or(Or(a, b), c) == Or(a, c)
  {
  }

  // ---------------------------------------------------------------------------
  // __eq__ and __hash__

  /** `getattr(self, n)` for each name in `names`, in order. */
  function AttrValues(attrs: map<string, Value>, names: seq<string>): (r: seq<Value>)
    requires forall n <- names :: n in attrs
    ensures |r| == |names|
    ensures forall i :: 0 <= i < |names| ==> r[i] == attrs[names[i]]
    decreases |names|
  {
    if |names| == 0 then [] else [attrs[names[0]]] + AttrValues(attrs, names[1..])
  }

  /** `__eq__`: same class, and equal values of every managed identity
      attribute (the declared identity attributes, `kind`, `within`, `fallback`),
      where `None` equals only `None` and nested specs compare with `__eq__`. */
  predicate SpecEq(a: Spec, b: Spec)
    requires Valid(a) && Valid(b)
    decreases a
  {
    && a.cls == b.cls
    && (forall n <- a.cls.identityAttributes :: a.attrs[n] == b.attrs[n])
    && a.kind == b.kind
    && (a.within.None? <==> b.within.None?)
    && (a.within.Some? && b.within.Some? ==> SpecEq(a.within.value, b.within.value))
    && (a.fallback.None? <==> b.fallback.None?)
    && (a.fallback.Some? && b.fallback.Some? ==> SpecEq(a.fallback.value, b.fallback.value))
  }

  /** Everything `__eq__` looks at, as one value. */
  datatype SpecKey = SpecKey(
    cls: SpecClass,
    values: seq<Value>,
    kind: string,
    within: Option<SpecKey>,
    fallback: Option<SpecKey>)

  function Key(s: Spec): SpecKey
    requires Valid(s)
    decreases s
  {
    SpecKey(
      s.cls,
      AttrValues(s.attrs, s.cls.identityAttributes),
      s.kind,
      if s.within.Some? then Some(Key(s.within.value)) else None,
      if s.fallback.Some? then Some(Key(s.fallback.value)) else None)
  }

  /** Spec equality is exactly equality of the managed identity data, class included. */
  lemma {:induction false} SpecEqIffSameKey(a: Spec, b: Spec)
    requires Valid(a) && Valid(b)
    ensures SpecEq(a, b) <==> Key(a) == Key(b)
    decreases a
  {
    if a.within.Some? && b.within.Some? {
      SpecEqIffSameKey(a.within.value, b.within.value);
    }
    if a.fallback.Some? && b.fallback.Some? {
      SpecEqIffSameKey(a.fallback.value, b.fallback.value);
    }
    if a.cls == b.cls {
      var names := a.cls.identityAttributes;
      var va, vb := AttrValues(a.attrs, names), AttrValues(b.attrs, names);
      if va == vb {
        forall n <- names
          ensures a.attrs[n] == b.attrs[n]
        {
          var i :| 0 <= i < |names| && names[i] == n;
          assert va[i] == vb[i];
        }
      }
    }
  }

  /** `__eq__` is an equivalence relation on well-formed specs. */
  lemma SpecEqIsEquivalence(a: Spec, b: Spec, c: Spec)
    requires Valid(a) && Valid(b) && Valid(c)
    ensures SpecEq(a, a)
    ensures SpecEq(a, b) ==> SpecEq(b, a)
    ensures SpecEq(a, b) && SpecEq(b, c) ==> SpecEq(a, c)
  {
    SpecEqIffSameKey(a, a);
    SpecEqIffSameKey(a, b);
    SpecEqIffSameKey(b, a);
    SpecEqIffSameKey(b, c);
    SpecEqIffSameKey(a, c);
  }

  /** Specs of different classes are never equal. */
  lemma DifferentClassesNeverEqual(a: Spec, b: Spec)
    requires Valid(a) && Valid(b)
    requires a.cls != b.cls
    ensures !SpecEq(a, b)
  {
  }

  /** The tuple `__hash__` hashes: the managed identity attribute values, with
      nested specs contributing their own `__hash__` tuples. */
  datatype HashTuple = HashTuple(
    values: seq<Value>,
    kind: string,
    within: Option<HashTuple>,
    fallback: Option<HashTuple>)

  function IdentityTuple(s: Spec): HashTuple
    requires Valid(s)
    decreases s
  {
    HashTuple(
      AttrValues(s.attrs, s.cls.identityAttributes),
      s.kind,
      if s.within.Some? then Some(IdentityTuple(s.within.value)) else None,
      if s.fallback.Some? then Some(IdentityTuple(s.fallback.value)) else None)
  }

  /** `__hash__`, for Python's built-in tuple hash `tupleHash`. */
  function SpecHash(tupleHash: HashTuple -> int, s: Spec): int
    requires Valid(s)
  {
    tupleHash(IdentityTuple(s))
  }

  /** Equal specs have equal hash tuples, so they hash equally under any tuple hash. */
  lemma {:induction false} EqualSpecsHashEqually(tupleHash: HashTuple -> int, a: Spec, b: Spec)
    requires Valid(a) && Valid(b)
    requires SpecEq(a, b)
    ensures IdentityTuple(a) == IdentityTuple(b)
    ensures SpecHash(tupleHash, a) == SpecHash(tupleHash, b)
    decreases a
  {
    var names := a.cls.identityAttributes;
    var va, vb := AttrValues(a.attrs, names), AttrValues(b.attrs, names);
    assert va == vb by {
      forall i | 0 <= i < |names|
        ensures va[i] == vb[i]
      {
        assert names[i] in names;
      }
    }
    if a.within.Some? {
      EqualSpecsHashEqually(tupleHash, a.within.value, b.within.value);
    }
    if a.fallback.Some? {
      EqualSpecsHashEqually(tupleHash, a.fallback.value, b.fallback.value);
    }
  }

  /** `a | b` equals `a` exactly when `a` already had a fallback equal to `b`. */
  lemma OrEqualsReceiverIff(a: Spec, b: Spec)
    requires Valid(a) && Valid(b)
    ensures Valid(Or(a, b))
    ensures SpecEq(Or(a, b), a) <==> a.fallback.Some? && SpecEq(b, a.fallback.value)
  {
    var r := Or(a, b);
    if a.within.Some? {
      SpecEqIsEquivalence(a.within.value, a.within.value, a.within.value);
    }
    if a.fallback.Some? {
      SpecEqIsEquivalence(b, a.fallback.value, b);
    }
  }
}
