/**
  Normalisation of the arguments passed straight through to the runner.

  Jest declares some of its options as booleans. When such a flag is
  written bare (`--color`) or negated (`--no-color`) in front of a spec
  path, the argument parser binds the path to the flag. `FixJestSingletonFlags`
  gives the flag back its boolean value and moves the swallowed value to the
  front of the positional list `_`. The set of boolean flag names (with
  their aliases) comes from Jest's option table through `CollectIgnoredArgs`.
  Mocha needs no such repair.
 */
module CollectExtraArgs {
  import opened Wrappers
  import opened JsValues
  import opened JsObjects
  import opened Strings

  /** `option.alias` of an option: missing, one name, or an array of names. */
  datatype Alias = NoAlias | OneAlias(name: string) | Aliases(names: seq<string>)

  /** An option description: its `type` and its `alias`. */
  datatype CliOption = CliOption(optionType: string, alias: Alias)

  /** An options object: option names with their descriptions, in declaration order. */
  type OptionTable = seq<(string, CliOption)>

  /** The names `option.alias` contributes; an empty single alias is falsy and contributes none. */
  function AliasNames(a: Alias): set<string> {
    match a
    case NoAlias => {}
    case OneAlias(name) => if name == "" then {} else {name}
    case Aliases(names) => set i | 0 <= i < |names| :: names[i]
  }

  /** Every name an option table entry answers to. */
  function OptionNames(entry: (string, CliOption)): set<string> {
    {entry.0} + AliasNames(entry.1.alias)
  }

  /** The set the reduce of `collectIgnoredArgs` has built after the entries of `table`. */
  function IgnoredArgs(table: OptionTable): set<string>
    decreases |table|
  {
    if table == [] then {}
    else IgnoredArgs(table[..|table| - 1]) + OptionNames(table[|table| - 1])
  }

  /** The collected set is exactly the union of the option names and their aliases. */
  lemma {:induction false} IgnoredArgsMembers(table: OptionTable, x: string)
    ensures x in IgnoredArgs(table) <==> exists e :: e in table && x in OptionNames(e)
    decreases |table|
  {
    if table != [] {
      var init, last := table[..|table| - 1], table[|table| - 1];
      IgnoredArgsMembers(init, x);
      assert table == init + [last];
      if x in IgnoredArgs(init) {
        var e :| e in init && x in OptionNames(e);
        assert e in table;
      }
    }
  }

  method CollectIgnoredArgs(builder: OptionTable) returns (names: set<string>)
    ensures names == IgnoredArgs(builder)
    ensures forall key, option :: (key, option) in builder ==> key in names && AliasNames(option.alias) <= names
    ensures forall x :: x in names ==> exists e :: e in builder && x in OptionNames(e)
  {
    names := {};
    for i := 0 to |builder|
      invariant names == IgnoredArgs(builder[..i])
    {
      var key, option := builder[i].0, builder[i].1;
      match option.alias {
        case NoAlias =>
        case OneAlias(name) =>
          if name != "" {
            names := names + {name};
          }
        case Aliases(list) =>
          for j := 0 to |list|
            invariant names == IgnoredArgs(builder[..i]) + set m | 0 <= m < j :: list[m]
          {
            names := names + {list[j]};
          }
      }
      names := names + {key};
      assert builder[..i + 1][..i] == builder[..i];
    }
    assert builder[..|builder|] == builder;
    forall x
      ensures x in names <==> exists e :: e in builder && x in OptionNames(e)
    {
      IgnoredArgsMembers(builder, x);
    }
    forall key, option | (key, option) in builder
      ensures key in names && AliasNames(option.alias) <= names
    {
      assert key in OptionNames((key, option));
      forall a | a in AliasNames(option.alias) ensures a in names {
        assert a in OptionNames((key, option));
      }
    }
  }

  /** lodash `pickBy(options, ({type}) => type === 'boolean')`, keeping declaration order. */
  function BooleanOptions(table: OptionTable): (r: OptionTable)
    ensures forall e :: e in r <==> e in table && e.1.optionType == "boolean"
    decreases |table|
  {
    if table == [] then []
    else
      var last := table[|table| - 1];
      var init := BooleanOptions(table[..|table| - 1]);
      assert table == table[..|table| - 1] + [last];
      if last.1.optionType == "boolean" then init + [last] else init
  }

  /** The module-level `booleanJestArgs`: every name or alias of a boolean option. */
  lemma BooleanArgsMembers(table: OptionTable, x: string)
    ensures x in IgnoredArgs(BooleanOptions(table)) <==>
      exists e :: e in table && e.1.optionType == "boolean" && x in OptionNames(e)
  {
    IgnoredArgsMembers(BooleanOptions(table), x);
  }

  // ---------------------------------------------------------------------
  // fixJestSingletonFlags

  /** Parsed pass-through arguments: the named options, and the positional list `_` when there is one. */
  datatype ParsedArgs = ParsedArgs(named: JsObject, positional: Option<seq<JsValue>>)

  /** `key` with a leading `no-` removed. */
  function PositiveKey(key: string): string {
    if StartsWith(key, "no-") then key[3..] else key
  }

  /** A boolean flag that was given a non-boolean value, which it swallowed. */
  predicate Swallowed(key: string, value: JsValue, booleanArgs: set<string>) {
    PositiveKey(key) in booleanArgs && !value.Bool?
  }

  /** The key an entry is written to in the result. */
  function TargetKey(key: string, value: JsValue, booleanArgs: set<string>): string {
    if Swallowed(key, value, booleanArgs) then PositiveKey(key) else key
  }

  /** The value an entry writes: the flag's own polarity, or the value unchanged. */
  function NewValue(key: string, value: JsValue, booleanArgs: set<string>): JsValue {
    if Swallowed(key, value, booleanArgs) then Bool(key == PositiveKey(key)) else value
  }

  /** The result object after the first `n` entries of `argv`. */
  function FixedFlags(argv: JsObject, booleanArgs: set<string>, n: nat): (r: JsObject)
    requires n <= |argv.keys|
    ensures r.Valid()
    ensures |r.keys| <= n
    ensures forall k :: r.Has(k) ==>
      exists j :: 0 <= j < n && argv.keys[j] != "_" && TargetKey(argv.keys[j], argv.Get(argv.keys[j]), booleanArgs) == k
    decreases n
  {
    if n == 0 then Empty
    else
      var prev := FixedFlags(argv, booleanArgs, n - 1);
      var key := argv.keys[n - 1];
      if key == "_" then prev
      else prev.Set(TargetKey(key, argv.Get(key), booleanArgs), NewValue(key, argv.Get(key), booleanArgs))
  }

  /** Entry `j` is a boolean flag, other than `_`, that swallowed its value. */
  predicate IsStray(argv: JsObject, booleanArgs: set<string>, j: nat)
    requires j < |argv.keys|
  {
    argv.keys[j] != "_" && Swallowed(argv.keys[j], argv.Get(argv.keys[j]), booleanArgs)
  }

  /** The positions of the swallowing entries among the first `n`. */
  function StrayIndices(argv: JsObject, booleanArgs: set<string>, n: nat): set<nat>
    requires n <= |argv.keys|
  {
    set j: nat | j < n && IsStray(argv, booleanArgs, j)
  }

  lemma StrayIndicesUnion(argv: JsObject, booleanArgs: set<string>, n: nat)
    requires 0 < n <= |argv.keys|
    ensures StrayIndices(argv, booleanArgs, n) ==
      StrayIndices(argv, booleanArgs, n - 1) + if IsStray(argv, booleanArgs, n - 1) then {n - 1} else {}
  {
    var before := StrayIndices(argv, booleanArgs, n - 1);
    forall x | x in StrayIndices(argv, booleanArgs, n) && x < n - 1 ensures x in before {
    }
  }

  lemma StrayIndicesStep(argv: JsObject, booleanArgs: set<string>, n: nat)
    requires 0 < n <= |argv.keys|
    ensures |StrayIndices(argv, booleanArgs, n)| ==
      |StrayIndices(argv, booleanArgs, n - 1)| + if IsStray(argv, booleanArgs, n - 1) then 1 else 0
  {
    StrayIndicesUnion(argv, booleanArgs, n);
    assert n - 1 !in StrayIndices(argv, booleanArgs, n - 1);
  }

  /**
    The swallowed values among the first `n` entries, in entry order: one
    for each swallowing entry, and every swallowing entry's value is there.
   */
  function Strays(argv: JsObject, booleanArgs: set<string>, n: nat): (s: seq<JsValue>)
    requires n <= |argv.keys|
    ensures |s| <= n
    ensures forall v :: v in s ==>
      exists j :: 0 <= j < n && IsStray(argv, booleanArgs, j) && argv.Get(argv.keys[j]) == v
    ensures forall j :: 0 <= j < n && IsStray(argv, booleanArgs, j) ==> argv.Get(argv.keys[j]) in s
    decreases n
  {
    if n == 0 then []
    else
      var prev := Strays(argv, booleanArgs, n - 1);
      var key := argv.keys[n - 1];
      if IsStray(argv, booleanArgs, n - 1) then prev + [argv.Get(key)] else prev
  }

  /** `_` receives exactly one value per swallowing entry. */
  lemma {:induction false} StraysCount(argv: JsObject, booleanArgs: set<string>, n: nat)
    requires n <= |argv.keys|
    ensures |Strays(argv, booleanArgs, n)| == |StrayIndices(argv, booleanArgs, n)|
    decreases n
  {
    if n > 0 {
      StraysCount(argv, booleanArgs, n - 1);
      StrayIndicesStep(argv, booleanArgs, n);
    }
  }

  /**
    Entry `j`, when it swallowed its value, puts that value in `_` at the
    position given by the number of swallowing entries before it.
   */
  lemma {:induction false} StrayPosition(argv: JsObject, booleanArgs: set<string>, n: nat, j: nat)
    requires j < n <= |argv.keys|
    requires IsStray(argv, booleanArgs, j)
    ensures |StrayIndices(argv, booleanArgs, j)| < |Strays(argv, booleanArgs, n)|
    ensures Strays(argv, booleanArgs, n)[|StrayIndices(argv, booleanArgs, j)|] == argv.Get(argv.keys[j])
    decreases n
  {
    var s, prev := Strays(argv, booleanArgs, n), Strays(argv, booleanArgs, n - 1);
    var p := |StrayIndices(argv, booleanArgs, j)|;
    StraysCount(argv, booleanArgs, j);
    assert s == prev + if IsStray(argv, booleanArgs, n - 1) then [argv.Get(argv.keys[n - 1])] else [];
    if j < n - 1 {
      StrayPosition(argv, booleanArgs, n - 1, j);
      assert s[p] == prev[p];
    } else {
      assert p == |prev|;
    }
  }

  /** One more entry appends its value exactly when it swallowed it. */
  lemma StraysStep(argv: JsObject, booleanArgs: set<string>, i: nat)
    requires i < |argv.keys|
    ensures Strays(argv, booleanArgs, i + 1) ==
      Strays(argv, booleanArgs, i) + if IsStray(argv, booleanArgs, i) then [argv.Get(argv.keys[i])] else []
  {
  }

  /** `concat(argv._)`: the positional array, or a lone `undefined` when there is none. */
  function PositionalList(positional: Option<seq<JsValue>>): seq<JsValue> {
    match positional
    case Some(items) => items
    case None => [Undefined]
  }

  method FixJestSingletonFlags(argv: ParsedArgs, jestOptions: OptionTable) returns (result: ParsedArgs)
    ensures var booleanArgs := IgnoredArgs(BooleanOptions(jestOptions));
      && result.named == FixedFlags(argv.named, booleanArgs, |argv.named.keys|)
      && result.positional == Some(Strays(argv.named, booleanArgs, |argv.named.keys|) + PositionalList(argv.positional))
  {
    var booleanJestArgs := CollectIgnoredArgs(BooleanOptions(jestOptions));
    var named := Empty;
    var passthrough: seq<JsValue> := [];
    for i := 0 to |argv.named.keys|
      invariant named == FixedFlags(argv.named, booleanJestArgs, i)
      invariant passthrough == Strays(argv.named, booleanJestArgs, i)
    {
      var key := argv.named.keys[i];
      var value := argv.named.Get(key);
      StraysStep(argv.named, booleanJestArgs, i);
      if key == "_" {
        continue;
      }
      var positiveKey := if StartsWith(key, "no-") then key[3..] else key;
      assert positiveKey == PositiveKey(key);
      if positiveKey in booleanJestArgs && !value.Bool? {
        named := named.Set(positiveKey, Bool(key == positiveKey));
        passthrough := passthrough + [value];
      } else {
        named := named.Set(key, value);
      }
    }
    result := ParsedArgs(named, Some(passthrough + PositionalList(argv.positional)));
  }

  // ---------------------------------------------------------------------
  // What the result holds

  /** The last of the first `n` entries that writes to `k`, if any. */
  function LastWriter(argv: JsObject, booleanArgs: set<string>, n: nat, k: string): (r: Option<nat>)
    requires n <= |argv.keys|
    ensures r.Some? ==> r.value < n
    decreases n
  {
    if n == 0 then None
    else
      var key := argv.keys[n - 1];
      if key != "_" && TargetKey(key, argv.Get(key), booleanArgs) == k then Some(n - 1)
      else LastWriter(argv, booleanArgs, n - 1, k)
  }

  /** A key is in the result exactly when some entry writes to it, and it holds what the last such entry wrote. */
  lemma {:induction false} FixedFlagsGet(argv: JsObject, booleanArgs: set<string>, n: nat, k: string)
    requires n <= |argv.keys|
    ensures FixedFlags(argv, booleanArgs, n).Has(k) <==> LastWriter(argv, booleanArgs, n, k).Some?
    ensures FixedFlags(argv, booleanArgs, n).Get(k) ==
      match LastWriter(argv, booleanArgs, n, k)
      case Some(i) => NewValue(argv.keys[i], argv.Get(argv.keys[i]), booleanArgs)
      case None => Undefined
    decreases n
  {
    if n > 0 {
      FixedFlagsGet(argv, booleanArgs, n - 1, k);
      var prev := FixedFlags(argv, booleanArgs, n - 1);
      var key := argv.keys[n - 1];
      if key != "_" {
        var target := TargetKey(key, argv.Get(key), booleanArgs);
        var value := NewValue(key, argv.Get(key), booleanArgs);
        assert FixedFlags(argv, booleanArgs, n) == prev.Set(target, value);
        if target == k {
          assert LastWriter(argv, booleanArgs, n, k) == Some(n - 1);
        } else {
          assert LastWriter(argv, booleanArgs, n, k) == LastWriter(argv, booleanArgs, n - 1, k);
        }
      }
    }
  }

  /** No entry after `i` writes to the key that entry `i` writes to. */
  predicate LastToWrite(argv: JsObject, booleanArgs: set<string>, i: nat)
    requires i < |argv.keys|
  {
    var target := TargetKey(argv.keys[i], argv.Get(argv.keys[i]), booleanArgs);
    forall j :: i < j < |argv.keys| && argv.keys[j] != "_" ==>
      TargetKey(argv.keys[j], argv.Get(argv.keys[j]), booleanArgs) != target
  }

  lemma {:induction false} LastWriterIs(argv: JsObject, booleanArgs: set<string>, n: nat, i: nat)
    requires i < n <= |argv.keys| && argv.keys[i] != "_"
    requires LastToWrite(argv, booleanArgs, i)
    ensures LastWriter(argv, booleanArgs, n, TargetKey(argv.keys[i], argv.Get(argv.keys[i]), booleanArgs)) == Some(i)
    decreases n
  {
    if n - 1 > i {
      LastWriterIs(argv, booleanArgs, n - 1, i);
    }
  }

  /**
    Entry `i` of the arguments, when nothing after it writes the same key:
    a boolean flag that swallowed a value is set to its polarity under its
    positive name; any other entry keeps its key and value (a boolean flag
    whose value is already a boolean included).
   */
  lemma EntryOutcome(argv: JsObject, booleanArgs: set<string>, i: nat)
    requires i < |argv.keys| && argv.keys[i] != "_"
    requires LastToWrite(argv, booleanArgs, i)
    ensures var key, value, r := argv.keys[i], argv.Get(argv.keys[i]), FixedFlags(argv, booleanArgs, |argv.keys|);
      && (Swallowed(key, value, booleanArgs) ==> r.Has(PositiveKey(key)) && r.Get(PositiveKey(key)) == Bool(key == PositiveKey(key)))
      && (!Swallowed(key, value, booleanArgs) ==> r.Has(key) && r.Get(key) == value)
  {
    var target := TargetKey(argv.keys[i], argv.Get(argv.keys[i]), booleanArgs);
    LastWriterIs(argv, booleanArgs, |argv.keys|, i);
    FixedFlagsGet(argv, booleanArgs, |argv.keys|, target);
  }

  lemma {:induction false} NoWriter(argv: JsObject, booleanArgs: set<string>, n: nat, k: string)
    requires n <= |argv.keys|
    requires forall j :: 0 <= j < n && argv.keys[j] != "_" ==> TargetKey(argv.keys[j], argv.Get(argv.keys[j]), booleanArgs) != k
    ensures LastWriter(argv, booleanArgs, n, k) == None
    decreases n
  {
    if n > 0 {
      NoWriter(argv, booleanArgs, n - 1, k);
    }
  }

  /**
    A negated flag `no-x` that swallowed a value is not copied under its
    own name (as long as `no-x` is not itself the positive form of another
    boolean flag).
   */
  lemma NegatedKeyDropped(argv: JsObject, booleanArgs: set<string>, i: nat)
    requires argv.Valid()
    requires i < |argv.keys|
    requires var key := argv.keys[i]; key != PositiveKey(key) && Swallowed(key, argv.Get(key), booleanArgs)
    requires argv.keys[i] !in booleanArgs
    ensures !FixedFlags(argv, booleanArgs, |argv.keys|).Has(argv.keys[i])
  {
    var k := argv.keys[i];
    forall j | 0 <= j < |argv.keys| && argv.keys[j] != "_"
      ensures TargetKey(argv.keys[j], argv.Get(argv.keys[j]), booleanArgs) != k
    {
      if j != i && !Swallowed(argv.keys[j], argv.Get(argv.keys[j]), booleanArgs) {
        assert argv.keys[j] != argv.keys[i];
      }
    }
    NoWriter(argv, booleanArgs, |argv.keys|, k);
    FixedFlagsGet(argv, booleanArgs, |argv.keys|, k);
  }

  /** Entry `j` is an ordinary option: not `_`, and not a boolean flag holding a non-boolean value. */
  predicate PlainEntry(argv: JsObject, booleanArgs: set<string>, j: nat)
    requires j < |argv.keys|
  {
    argv.keys[j] != "_" && !Swallowed(argv.keys[j], argv.Get(argv.keys[j]), booleanArgs)
  }

  lemma {:induction false} NothingSwallowedKeys(argv: JsObject, booleanArgs: set<string>, n: nat)
    requires argv.Valid() && n <= |argv.keys|
    requires forall j :: 0 <= j < |argv.keys| ==> PlainEntry(argv, booleanArgs, j)
    ensures FixedFlags(argv, booleanArgs, n).keys == argv.keys[..n]
    decreases n
  {
    if n > 0 {
      var key := argv.keys[n - 1];
      assert argv.keys[..n] == argv.keys[..n - 1] + [key];
      NothingSwallowedKeys(argv, booleanArgs, n - 1);
      var prev := FixedFlags(argv, booleanArgs, n - 1);
      assert PlainEntry(argv, booleanArgs, n - 1);
      assert key !in prev.keys;
      assert FixedFlags(argv, booleanArgs, n) == prev.Set(key, argv.Get(key));
    }
  }

  /** With distinct keys and no swallowed value, no later entry writes over entry `i`. */
  lemma PlainLastToWrite(argv: JsObject, booleanArgs: set<string>, i: nat)
    requires Distinct(argv.keys) && i < |argv.keys|
    requires forall j :: 0 <= j < |argv.keys| ==> PlainEntry(argv, booleanArgs, j)
    ensures LastToWrite(argv, booleanArgs, i)
  {
    assert PlainEntry(argv, booleanArgs, i);
    forall j | i < j < |argv.keys| && argv.keys[j] != "_"
      ensures TargetKey(argv.keys[j], argv.Get(argv.keys[j]), booleanArgs) != argv.keys[i]
    {
      assert PlainEntry(argv, booleanArgs, j);
      assert argv.keys[j] != argv.keys[i];
    }
  }

  lemma {:induction false} NothingSwallowedStrays(argv: JsObject, booleanArgs: set<string>, n: nat)
    requires n <= |argv.keys|
    requires forall j :: 0 <= j < |argv.keys| ==> PlainEntry(argv, booleanArgs, j)
    ensures Strays(argv, booleanArgs, n) == []
    decreases n
  {
    if n > 0 {
      NothingSwallowedStrays(argv, booleanArgs, n - 1);
      assert PlainEntry(argv, booleanArgs, n - 1);
    }
  }

  /** With no ambiguous flag, the named arguments come back unchanged and no value moves to `_`. */
  lemma FixJestIdentity(argv: JsObject, booleanArgs: set<string>)
    requires argv.Valid()
    requires forall j :: 0 <= j < |argv.keys| ==> PlainEntry(argv, booleanArgs, j)
    ensures FixedFlags(argv, booleanArgs, |argv.keys|) == argv
    ensures Strays(argv, booleanArgs, |argv.keys|) == []
  {
    var r := FixedFlags(argv, booleanArgs, |argv.keys|);
    NothingSwallowedKeys(argv, booleanArgs, |argv.keys|);
    NothingSwallowedStrays(argv, booleanArgs, |argv.keys|);
    assert argv.keys[..|argv.keys|] == argv.keys;
    assert r.values.Keys == argv.values.Keys;
    forall k | k in r.values ensures r.values[k] == argv.values[k] {
      var i :| 0 <= i < |argv.keys| && argv.keys[i] == k;
      assert PlainEntry(argv, booleanArgs, i);
      PlainLastToWrite(argv, booleanArgs, i);
      EntryOutcome(argv, booleanArgs, i);
    }
    assert r.values == argv.values;
  }

  /** `--no-color foo.spec.js` with `color` a boolean flag: color is false, the path goes first in `_`. */
  lemma NoColorExample(positional: seq<JsValue>)
    ensures var argv := JsObject(["no-color"], map["no-color" := Str("foo.spec.js")]);
      && FixedFlags(argv, {"color"}, 1).Get("color") == Bool(false)
      && !FixedFlags(argv, {"color"}, 1).Has("no-color")
      && Strays(argv, {"color"}, 1) + positional == [Str("foo.spec.js")] + positional
  {
    var argv := JsObject(["no-color"], map["no-color" := Str("foo.spec.js")]);
    assert StartsWith("no-color", "no-");
    assert PositiveKey("no-color") == "color";
  }

  /** Mocha has no ambiguous flags: its arguments pass through unchanged. */
  function FixMochaSingletonFlags(argv: ParsedArgs): (r: ParsedArgs)
    ensures r == argv
  {
    argv
  }
}
