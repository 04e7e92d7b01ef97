/**
 * The Python built-ins the ticket viewer relies on, over `string` (a sequence of
 * code points, as Python's `str`): `str.split` and `str.join` with a one-character
 * separator, `str.replace` of one character, `str.startswith`, the slice `s[n:]`,
 * `str.lower` on one character, `dict.get` and `str()` of an optional string.
 */
module Builtins {
  import opened Wrappers

  /** `s.split(sep)`: the maximal separator-free pieces of `s`, left to right.
      Python splits the empty string into one empty piece. */
  function Split(s: string, sep: char): (parts: seq<string>)
    ensures |parts| >= 1
    ensures forall i :: 0 <= i < |parts| ==> sep !in parts[i]
    decreases |s|
  {
    if s == [] then [""]
    else
      var rest := Split(s[1..], sep);
      if s[0] == sep then [""] + rest
      else [[s[0]] + rest[0]] + rest[1..]
  }

  /** `sep.join(parts)` for a non-empty list of pieces. */
  function Join(parts: seq<string>, sep: char): string
    requires |parts| >= 1
    decreases |parts|
  {
    if |parts| == 1 then parts[0] else parts[0] + [sep] + Join(parts[1..], sep)
  }

  /** Joining two pieces puts one separator between them. */
  lemma JoinTwo(a: string, b: string, sep: char)
    ensures Join([a, b], sep) == a + [sep] + b
  {
    assert [a, b][1..] == [b];
  }

  /** Joining the pieces of a split gives back the string. */
  lemma {:induction false} JoinSplit(s: string, sep: char)
    ensures Join(Split(s, sep), sep) == s
    decreases |s|
  {
    if s != [] {
      var rest := Split(s[1..], sep);
      JoinSplit(s[1..], sep);
      if s[0] == sep {
        assert Split(s, sep) == [""] + rest;
        assert ([""] + rest)[1..] == rest;
        assert s == [sep] + s[1..];
      } else {
        JoinPrepend(s[0], rest, sep);
        assert s == [s[0]] + s[1..];
      }
    }
  }

  /** Prepending a character to the first piece prepends it to the joined string. */
  lemma JoinPrepend(c: char, parts: seq<string>, sep: char)
    requires |parts| >= 1
    ensures Join([[c] + parts[0]] + parts[1..], sep) == [c] + Join(parts, sep)
  {
    var q := [[c] + parts[0]] + parts[1..];
    if |parts| > 1 {
      assert q[1..] == parts[1..];
    }
  }

  /** A string without the separator splits into itself alone. */
  lemma {:induction false} SplitWithoutSeparator(p: string, sep: char)
    requires sep !in p
    ensures Split(p, sep) == [p]
    decreases |p|
  {
    if p != [] {
      SplitWithoutSeparator(p[1..], sep);
      assert [p[0]] + p[1..] == p;
    }
  }

  /** A separator-free piece followed by the separator splits off as the first piece. */
  lemma {:induction false} SplitAfterPiece(p: string, t: string, sep: char)
    requires sep !in p
    ensures Split(p + [sep] + t, sep) == [p] + Split(t, sep)
    decreases |p|
  {
    var s := p + [sep] + t;
    if p == [] {
      assert s == [sep] + t;
      assert s[1..] == t;
    } else {
      SplitAfterPiece(p[1..], t, sep);
      assert s[1..] == p[1..] + [sep] + t;
      assert [p[0]] + p[1..] == p;
    }
  }

  /** Splitting a join of separator-free pieces gives back the pieces. */
  lemma {:induction false} SplitJoin(parts: seq<string>, sep: char)
    requires |parts| >= 1
    requires forall i :: 0 <= i < |parts| ==> sep !in parts[i]
    ensures Split(Join(parts, sep), sep) == parts
    decreases |parts|
  {
    if |parts| == 1 {
      SplitWithoutSeparator(parts[0], sep);
    } else {
      SplitJoin(parts[1..], sep);
      SplitAfterPiece(parts[0], Join(parts[1..], sep), sep);
      assert [parts[0]] + parts[1..] == parts;
    }
  }

  /** `s.replace(target, repl)` for a one-character `target`: every occurrence, left to right. */
  function Replace(s: string, target: char, repl: string): string
    decreases |s|
  {
    if s == [] then []
    else (if s[0] == target then repl else [s[0]]) + Replace(s[1..], target, repl)
  }

  /** Replacing distributes over concatenation. */
  lemma {:induction false} ReplaceConcat(a: string, b: string, target: char, repl: string)
    ensures Replace(a + b, target, repl) == Replace(a, target, repl) + Replace(b, target, repl)
    decreases |a|
  {
    if a != [] {
      ReplaceConcat(a[1..], b, target, repl);
      assert (a + b)[1..] == a[1..] + b;
    } else {
      assert a + b == b;
    }
  }

  /** A string without the target is left unchanged. */
  lemma {:induction false} ReplaceAbsent(s: string, target: char, repl: string)
    requires target !in s
    ensures Replace(s, target, repl) == s
    decreases |s|
  {
    if s != [] {
      ReplaceAbsent(s[1..], target, repl);
      assert [s[0]] + s[1..] == s;
    }
  }

  /** When the replacement does not contain the target, no occurrence of the target is left. */
  lemma {:induction false} ReplaceRemoves(s: string, target: char, repl: string)
    requires target !in repl
    ensures target !in Replace(s, target, repl)
    decreases |s|
  {
    if s != [] {
      ReplaceRemoves(s[1..], target, repl);
    }
  }

  /** `s.startswith(prefix)`. */
  predicate StartsWith(s: string, prefix: string) {
    |prefix| <= |s| && s[..|prefix|] == prefix
  }

  /** `s` ends with `suffix` (Python's `s.endswith(suffix)`). */
  predicate EndsWith(s: string, suffix: string) {
    |suffix| <= |s| && s[|s| - |suffix|..] == suffix
  }

  /** A concatenation starts with its first part. */
  lemma StartsWithConcat(a: string, b: string)
    ensures StartsWith(a + b, a)
  {
    assert (a + b)[..|a|] == a;
  }

  /** A concatenation ends with its second part. */
  lemma EndsWithConcat(a: string, b: string)
    ensures EndsWith(a + b, b)
  {
    assert (a + b)[|a|..] == b;
  }

  /** A suffix of a string without `c` has no `c` either. */
  lemma SuffixAvoids(s: string, t: string, c: char)
    requires c !in s && EndsWith(s, t)
    ensures c !in t
  {
    var k := |s| - |t|;
    assert forall n :: 0 <= n < |t| ==> t[n] == s[k + n];
  }

  /** The slice `s[n:]`, which is empty when `n` is past the end. */
  function Drop(s: string, n: nat): string {
    if n <= |s| then s[n..] else []
  }

  /** `c.lower()` for an ASCII letter; every other character is left as it is. */
  function LowerAscii(c: char): char {
    if 'A' <= c <= 'Z' then (c as int + 32) as char else c
  }

  /** `d.get(k)`: the value under `k`, or `None`. */
  function DictGet(d: map<string, string>, k: string): Option<string> {
    if k in d then Some(d[k]) else None
  }

  /** `str(x)` of an optional string: the string itself, or "None". */
  function Str(x: Option<string>): string {
    match x
    case Some(s) => s
    case None => "None"
  }
}
