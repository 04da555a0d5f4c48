/**
  Plain JavaScript objects with string keys. `Object.entries` walks the keys
  in insertion order, so an object is its key order plus the key-to-value
  map. Assigning to an existing key keeps its place; a new key goes last.

  A key can be present with the value `undefined`; `Get` of a missing key
  is `undefined` too, as reading a missing property is in JavaScript.
 */
module JsObjects {
  import opened JsValues

  predicate Distinct(ks: seq<string>) {
    forall i, j :: 0 <= i < j < |ks| ==> ks[i] != ks[j]
  }

  datatype JsObject = JsObject(keys: seq<string>, values: map<string, JsValue>) {

    ghost predicate Valid() {
      Distinct(keys) && forall k :: k in values <==> k in keys
    }

    /** `k in o` */
    predicate Has(k: string) {
      k in values
    }

    /** `o[k]` */
    function Get(k: string): JsValue {
      if k in values then values[k] else Undefined
    }

    /** `o[k] = v` */
    function Set(k: string, v: JsValue): (o: JsObject)
      requires Valid()
      ensures o.Valid()
      ensures o.Has(k) && o.Get(k) == v
      ensures forall k' :: k' != k ==> (o.Has(k') <==> Has(k')) && o.Get(k') == Get(k')
      ensures Has(k) ==> o.keys == keys
      ensures !Has(k) ==> o.keys == keys + [k]
    {
      if k in values then JsObject(keys, values[k := v]) else JsObject(keys + [k], values[k := v])
    }
  }

  const Empty: JsObject := JsObject([], map[])

  /** A property read from a configuration mapping: undefined when the key is missing. */
  function Read(config: map<string, JsValue>, k: string): JsValue {
    if k in config then config[k] else Undefined
  }

  // ---------------------------------------------------------------------
  // Object spread `{...target, ...source}`

  /** `target` after assigning the first `n` entries of `source`, in order. */
  function AssignPrefix(target: JsObject, source: JsObject, n: nat): (r: JsObject)
    requires target.Valid() && n <= |source.keys|
    ensures r.Valid()
    decreases n
  {
    if n == 0 then target
    else
      var k := source.keys[n - 1];
      AssignPrefix(target, source, n - 1).Set(k, source.Get(k))
  }

  /** `{...target, ...source}` (equivalently `Object.assign({}, target, source)`). */
  function Assign(target: JsObject, source: JsObject): (r: JsObject)
    requires target.Valid()
    ensures r.Valid()
  {
    AssignPrefix(target, source, |source.keys|)
  }

  lemma {:induction false} AssignPrefixGet(target: JsObject, source: JsObject, n: nat, k: string)
    requires target.Valid() && n <= |source.keys|
    ensures AssignPrefix(target, source, n).Has(k) <==> target.Has(k) || k in source.keys[..n]
    ensures k in source.keys[..n] ==> AssignPrefix(target, source, n).Get(k) == source.Get(k)
    ensures k !in source.keys[..n] ==> AssignPrefix(target, source, n).Get(k) == target.Get(k)
    decreases n
  {
    if n > 0 {
      AssignPrefixGet(target, source, n - 1, k);
      assert source.keys[..n] == source.keys[..n - 1] + [source.keys[n - 1]];
    }
  }

  /** Spreading `source` over `target`: the keys of `source` win, every other key keeps its value. */
  lemma AssignGet(target: JsObject, source: JsObject)
    requires target.Valid() && source.Valid()
    ensures forall k :: Assign(target, source).Has(k) <==> target.Has(k) || source.Has(k)
    ensures forall k :: Assign(target, source).Get(k) == if source.Has(k) then source.Get(k) else target.Get(k)
  {
    assert source.keys[..|source.keys|] == source.keys;
    forall k
      ensures Assign(target, source).Has(k) <==> target.Has(k) || source.Has(k)
      ensures Assign(target, source).Get(k) == if source.Has(k) then source.Get(k) else target.Get(k)
    {
      AssignPrefixGet(target, source, |source.keys|, k);
    }
  }

  // ---------------------------------------------------------------------
  // lodash `_.pick` and `_.omitBy(_, _.isUndefined)`

  function PickKeys(config: map<string, JsValue>, paths: seq<string>): (ks: seq<string>)
    ensures forall k :: k in ks <==> k in paths && k in config
    ensures Distinct(ks)
    decreases |paths|
  {
    if paths == [] then []
    else
      var last := paths[|paths| - 1];
      var prefix := PickKeys(config, paths[..|paths| - 1]);
      if last in config && last !in prefix then prefix + [last] else prefix
  }

  /** `_.pick(config, paths)`: the listed keys that the configuration has, in the order they are first listed. */
  function Pick(config: map<string, JsValue>, paths: seq<string>): (r: JsObject)
    ensures r.Valid()
    ensures forall k :: r.Has(k) <==> k in paths && k in config
    ensures forall k :: r.Get(k) == if k in paths then Read(config, k) else Undefined
  {
    JsObject(PickKeys(config, paths), map k | k in config && k in paths :: config[k])
  }

  function DefinedKeys(keys: seq<string>, values: map<string, JsValue>): (ks: seq<string>)
    ensures forall k :: k in ks <==> k in keys && k in values && values[k] != Undefined
    ensures Distinct(keys) ==> Distinct(ks)
    decreases |keys|
  {
    if keys == [] then []
    else
      var last := keys[|keys| - 1];
      var prefix := DefinedKeys(keys[..|keys| - 1], values);
      if last in values && values[last] != Undefined then prefix + [last] else prefix
  }

  /** `_.omitBy(o, _.isUndefined)`: the same object without the entries whose value is undefined. */
  function OmitUndefined(o: JsObject): (r: JsObject)
    requires o.Valid()
    ensures r.Valid()
    ensures forall k :: r.Has(k) <==> o.Has(k) && o.Get(k) != Undefined
    ensures forall k :: r.Get(k) == o.Get(k)
  {
    JsObject(DefinedKeys(o.keys, o.values), map k | k in o.values && o.values[k] != Undefined :: o.values[k])
  }
}
