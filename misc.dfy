/**
  Helpers of the command-line tools: the platform-exclusion tag, the
  one-line rendering of environment variables that is logged before a
  launch, and the choice of the device-registry lock file to reset.
 */
module Misc {
  import opened Wrappers
  import opened JsValues
  import opened JsObjects
  import opened Json

  /** The tag a spec name carries when it is meant for `platform` only. */
  function PlatformTag(platform: string): string {
    ":" + platform + ":"
  }

  /** The tag of the OTHER platform, whose specs are to be skipped; undefined for an unknown platform. */
  function GetPlatformSpecificString(platform: string): (r: JsValue)
    ensures r == Str(PlatformTag("android")) <==> platform == "ios"
    ensures r == Str(PlatformTag("ios")) <==> platform == "android"
    ensures r == Undefined <==> platform != "ios" && platform != "android"
    ensures r != Str(PlatformTag(platform))
  {
    if platform == "ios" then Str(PlatformTag("android"))
    else if platform == "android" then Str(PlatformTag("ios"))
    else Undefined
  }

  // ---------------------------------------------------------------------
  // printEnvironmentVariables

  /** The value is neither null, undefined nor the empty string. */
  predicate Printed(v: JsValue) {
    v != Undefined && v != Null && v != Str("")
  }

  function RenderEntry(key: string, v: JsValue): string
    requires v != Undefined
  {
    key + "=" + Stringify(v) + " "
  }

  /** What one entry adds to the line: its rendering, or nothing. */
  function Piece(o: JsObject, k: string): string {
    if Printed(o.Get(k)) then RenderEntry(k, o.Get(k)) else ""
  }

  /** The `reduce` over the entries `keys` of `o`, starting from `''`. */
  function PrintEntries(o: JsObject, keys: seq<string>): string
    decreases |keys|
  {
    if keys == [] then ""
    else
      var k := keys[|keys| - 1];
      var cli := PrintEntries(o, keys[..|keys| - 1]);
      if Printed(o.Get(k)) then cli + RenderEntry(k, o.Get(k)) else cli
  }

  /** `printEnvironmentVariables(env)`: the rendering of every kept entry, in entry order. */
  function PrintEnvironmentVariables(env: JsObject): (line: string)
    ensures line == Pieces(env, env.keys)
  {
    PrintIsPieces(env, env.keys);
    PrintEntries(env, env.keys)
  }

  /** Reference reading: the pieces of the entries, concatenated first to last. */
  function Pieces(o: JsObject, keys: seq<string>): string
    decreases |keys|
  {
    if keys == [] then "" else Piece(o, keys[0]) + Pieces(o, keys[1..])
  }

  lemma {:induction false} PiecesAppend(o: JsObject, a: seq<string>, b: seq<string>)
    ensures Pieces(o, a + b) == Pieces(o, a) + Pieces(o, b)
    decreases |a|
  {
    if a == [] {
      assert a + b == b;
    } else {
      assert (a + b)[0] == a[0];
      assert (a + b)[1..] == a[1..] + b;
      PiecesAppend(o, a[1..], b);
    }
  }

  /** The fold renders the kept entries in entry order, each exactly once. */
  lemma {:induction false} PrintIsPieces(o: JsObject, keys: seq<string>)
    ensures PrintEntries(o, keys) == Pieces(o, keys)
    decreases |keys|
  {
    if keys != [] {
      var init, k := keys[..|keys| - 1], keys[|keys| - 1];
      PrintIsPieces(o, init);
      PiecesAppend(o, init, [k]);
      assert init + [k] == keys;
    }
  }

  /** An empty environment prints as the empty string. */
  lemma PrintEmpty(env: JsObject)
    requires env.keys == []
    ensures PrintEnvironmentVariables(env) == ""
  {
  }

  /** Appending an entry appends exactly its rendering (or nothing when it is skipped). */
  lemma PrintAppend(o: JsObject, keys: seq<string>, k: string)
    ensures PrintEntries(o, keys + [k]) == PrintEntries(o, keys) + Piece(o, k)
  {
    assert (keys + [k])[..|keys|] == keys;
  }

  /** An entry whose value is null, undefined or '' leaves the line as it would be without it. */
  lemma PrintSkipsEmpty(o: JsObject, before: seq<string>, k: string, after: seq<string>)
    requires !Printed(o.Get(k))
    ensures PrintEntries(o, before + [k] + after) == PrintEntries(o, before + after)
  {
    PrintIsPieces(o, before + [k] + after);
    PrintIsPieces(o, before + after);
    PiecesAppend(o, before + [k], after);
    PiecesAppend(o, before, [k]);
    PiecesAppend(o, before, after);
  }

  /** `false` and `0` are not skipped. */
  lemma PrintKeepsFalseAndZero(k: string)
    ensures Printed(Bool(false)) && Printed(Num(0))
    ensures RenderEntry(k, Bool(false)) == k + "=false "
    ensures RenderEntry(k, Num(0)) == k + "=0 "
  {
  }

  /** A string value is printed between double quotes, and reading the quoted text back gives it again. */
  lemma PrintedStringRoundTrip(k: string, s: string)
    ensures RenderEntry(k, Str(s)) == k + "=" + Quote(s) + " "
    ensures ParseString(Quote(s)) == Some(s)
  {
    QuoteRoundTrip(s);
  }

  // ---------------------------------------------------------------------
  // clearDeviceRegistryLockFile

  datatype LockFile = DeviceLockFileIOS | DeviceLockFileAndroid

  datatype LockFileWrite = LockFileWrite(path: LockFile, content: string)

  /** The lock file reset before the first launch, and what is written into it. */
  function ClearDeviceRegistryLockFile(platform: string): (w: LockFileWrite)
    ensures w.path == DeviceLockFileIOS <==> platform == "ios"
    ensures w.content == "[]"
  {
    LockFileWrite(if platform == "ios" then DeviceLockFileIOS else DeviceLockFileAndroid, "[]")
  }
}
