/**
  String operations the `test` command uses: `String.prototype.split` on a
  single character, its inverse `join`, `startsWith` and `includes`.
 */
module Strings {

  predicate StartsWith(s: string, prefix: string) {
    |prefix| <= |s| && s[..|prefix|] == prefix
  }

  /** `s.includes(t)` */
  predicate Contains(s: string, t: string)
    decreases |s|
  {
    StartsWith(s, t) || (|s| > 0 && Contains(s[1..], t))
  }

  /** `includes` finds `t` when it occurs at some position of `s`. */
  lemma {:induction false} ContainsAt(s: string, t: string, i: nat)
    requires i + |t| <= |s| && s[i..i + |t|] == t
    ensures Contains(s, t)
    decreases i
  {
    if i > 0 {
      assert s[1..][i - 1..i - 1 + |t|] == s[i..i + |t|];
      ContainsAt(s[1..], t, i - 1);
    }
  }

  /** `t` occurs in `s` at position `i`. */
  predicate OccursAt(s: string, t: string, i: nat) {
    i + |t| <= |s| && s[i..i + |t|] == t
  }

  /** What `includes` finds occurs at some position. */
  lemma {:induction false} ContainsOccurs(s: string, t: string)
    requires Contains(s, t)
    ensures exists i: nat :: OccursAt(s, t, i)
    decreases |s|
  {
    if StartsWith(s, t) {
      assert OccursAt(s, t, 0);
    } else {
      ContainsOccurs(s[1..], t);
      var i: nat :| OccursAt(s[1..], t, i);
      assert s[1..][i..i + |t|] == s[i + 1..i + 1 + |t|];
      assert OccursAt(s, t, i + 1);
    }
  }

  /** The position of the first `c` in `s`. */
  function IndexOf(s: string, c: char): (i: nat)
    requires c in s
    ensures i < |s| && s[i] == c && c !in s[..i]
  {
    if s[0] == c then 0 else 1 + IndexOf(s[1..], c)
  }

  /** `s.split(sep)` for a one-character separator: never empty; `"".split(sep)` is `[""]`. */
  function Split(s: string, sep: char): (parts: seq<string>)
    ensures |parts| >= 1
    ensures forall i :: 0 <= i < |parts| ==> sep !in parts[i]
    decreases |s|
  {
    if sep !in s then [s]
    else
      var i := IndexOf(s, sep);
      [s[..i]] + Split(s[i + 1..], sep)
  }

  /** `parts.join(sep)` */
  function Join(parts: seq<string>, sep: char): string
    requires |parts| >= 1
    decreases |parts|
  {
    if |parts| == 1 then parts[0] else parts[0] + [sep] + Join(parts[1..], sep)
  }

  /** Joining the pieces of a split restores the text. */
  lemma {:induction false} JoinSplit(s: string, sep: char)
    ensures Join(Split(s, sep), sep) == s
    decreases |s|
  {
    if sep in s {
      var i := IndexOf(s, sep);
      var rest := s[i + 1..];
      var parts := Split(s, sep);
      assert parts == [s[..i]] + Split(rest, sep);
      assert parts[1..] == Split(rest, sep);
      assert Join(parts, sep) == s[..i] + [sep] + Join(Split(rest, sep), sep);
      JoinSplit(rest, sep);
      assert s == s[..i] + [sep] + rest;
    } else {
      assert Split(s, sep) == [s];
    }
  }

  lemma SplitNoSeparator(s: string, sep: char)
    requires sep !in s
    ensures Split(s, sep) == [s]
  {
  }

  /** Splitting a join of separator-free pieces gives the pieces back. */
  lemma {:induction false} SplitJoin(parts: seq<string>, sep: char)
    requires |parts| >= 1
    requires forall i :: 0 <= i < |parts| ==> sep !in parts[i]
    ensures Split(Join(parts, sep), sep) == parts
    decreases |parts|
  {
    if |parts| > 1 {
      var s := Join(parts, sep);
      var head := parts[0];
      assert s == head + [sep] + Join(parts[1..], sep);
      assert s[|head|] == sep;
      assert s[..|head|] == head;
      assert sep in s;
      var i := IndexOf(s, sep);
      assert i == |head|;
      assert Split(s, sep) == [head] + Split(s[i + 1..], sep);
      assert s[i + 1..] == Join(parts[1..], sep);
      SplitJoin(parts[1..], sep);
      assert parts == [head] + parts[1..];
    }
  }

  /** The first piece of a split is the text up to the first separator. */
  lemma FirstPiece(s: string, sep: char)
    ensures StartsWith(s, Split(s, sep)[0])
    ensures sep !in Split(s, sep)[0]
    ensures var p := Split(s, sep)[0]; p == s || s[|p|] == sep
  {
  }
}
