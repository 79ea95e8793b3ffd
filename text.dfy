/** Option and Result, used for the error paths of the store operations. */
module Wrappers {
  datatype Option<+T> = None | Some(value: T)

  datatype Result<+R> = Success(value: R) | Failure(error: string)
}

/**
 * How the attribute scripts read the string attributes of a subject or
 * aspect hash. `JSON.parse` itself is not modelled: the scripts are given it
 * as a function from the stored text to what it makes of that text.
 */
module Attributes {
  import opened Wrappers

  /** The record's `isPublished` attribute is the string "true". */
  predicate IsPublished(record: map<string, string>) {
    "isPublished" in record && record["isPublished"] == "true"
  }

  /** A tags or writers attribute. */
  datatype Decoded =
    | Malformed                    // JSON.parse throws
    | NotAnArray                   // a value other than an array
    | AnArray(items: seq<string>)  // an array, its elements as the Redis client sends them

  /** A range attribute: JSON.parse throws or yields null (None), or a [min, max] pair. */
  type RangeDecoder = string -> Option<(real, real)>
}

/**
 * The JavaScript string operations the sample store code relies on:
 * `startsWith` (as an anchored literal match), `indexOf`, `split`,
 * `toLowerCase` and de-duplication through `new Set`.
 */
module Text {

  /** `prefix` is an initial segment of `s`. */
  predicate StartsWith(prefix: string, s: string) {
    |prefix| <= |s| && s[..|prefix|] == prefix
  }

  lemma StartsWithAppend(p: string, q: string, s: string)
    requires StartsWith(p + q, s)
    ensures StartsWith(p, s)
  {
    assert s[..|p|] == (s[..|p + q|])[..|p|];
  }

  lemma StartsWithTrans(p: string, q: string, s: string)
    requires StartsWith(p, q) && StartsWith(q, s)
    ensures StartsWith(p, s)
  {
    assert s[..|p|] == s[..|q|][..|p|];
  }

  /** A common prefix can be dropped from both sides. */
  lemma StartsWithCancel(p: string, a: string, b: string)
    requires StartsWith(p + a, p + b)
    ensures StartsWith(a, b)
  {
    assert |a| <= |b|;
    assert (p + b)[..|p + a|] == p + b[..|a|];
    assert (p + b[..|a|])[|p|..] == b[..|a|];
    assert (p + a)[|p|..] == a;
  }

  /** Two strings under one prefix are equal only when what follows it is. */
  lemma PrefixedInjective(p: string, a: string, b: string)
    requires p + a == p + b
    ensures a == b
  {
    assert (p + a)[|p|..] == a && (p + b)[|p|..] == b;
  }

  lemma StartsWithSelf(p: string, rest: string)
    ensures StartsWith(p, p + rest)
  {
    assert (p + rest)[..|p|] == p;
  }

  /** A string that differs from `prefix` at position `i` (or ends before it) does not start with it. */
  lemma NotStartsWith(prefix: string, s: string, i: nat)
    requires i < |prefix|
    requires i >= |s| || s[i] != prefix[i]
    ensures !StartsWith(prefix, s)
  {
    if |prefix| <= |s| {
      assert s[..|prefix|][i] == s[i];
    }
  }

  /** The elements of a sequence. */
  function Elems<T>(s: seq<T>): set<T> {
    set x | x in s
  }

  predicate NoDup<T(==)>(s: seq<T>) {
    forall i, j :: 0 <= i < j < |s| ==> s[i] != s[j]
  }

  /** A duplicate-free sequence has as many elements as its set. */
  lemma {:induction false} NoDupCard<T>(s: seq<T>)
    requires NoDup(s)
    ensures |set x | x in s| == |s|
  {
    if s != [] {
      var init := s[..|s| - 1];
      assert NoDup(init);
      NoDupCard(init);
      assert s == init + [s[|s| - 1]];
      assert (set x | x in s) == (set x | x in init) + {s[|s| - 1]};
      assert s[|s| - 1] !in init;
    }
  }

  /** A subset is no larger, and strictly smaller when it leaves something out. */
  lemma {:induction false} SubsetCard<T>(a: set<T>, b: set<T>)
    requires a <= b
    ensures |a| <= |b|
    ensures a != b ==> |a| < |b|
    decreases |b|
  {
    if b != {} {
      var x :| x in b;
      SubsetCard(a - {x}, b - {x});
      assert |b - {x}| == |b| - 1;
      if x !in a {
        assert a - {x} == a;
      } else {
        assert |a - {x}| == |a| - 1;
        assert a != b ==> a - {x} != b - {x} by {
          if a - {x} == b - {x} {
            assert a == (a - {x}) + {x} && b == (b - {x}) + {x};
          }
        }
      }
    }
  }

  /** `String.prototype.indexOf` for one character: the first position, or -1. */
  function IndexOf(s: string, c: char): (r: int)
    ensures -1 <= r < |s|
    ensures r == -1 <==> c !in s
    ensures r >= 0 ==> s[r] == c && c !in s[..r]
  {
    if |s| == 0 then -1
    else if s[0] == c then 0
    else
      var i := IndexOf(s[1..], c);
      assert s == [s[0]] + s[1..];
      if i == -1 then -1
      else
        assert s[..i + 1] == [s[0]] + s[1..][..i];
        i + 1
  }

  lemma IndexOfAt(p: string, c: char, rest: string)
    requires c !in p
    ensures IndexOf(p + [c] + rest, c) == |p|
  {
    var s := p + [c] + rest;
    assert s[|p|] == c;
    assert s[..|p|] == p;
  }

  /** `String.prototype.split` with a one-character separator. */
  function Split(s: string, sep: char): (parts: seq<string>)
    ensures |parts| >= 1
    decreases |s|
  {
    var i := IndexOf(s, sep);
    if i < 0 then [s] else [s[..i]] + Split(s[i + 1..], sep)
  }

  /** No part of a split holds the separator. */
  lemma {:induction false} SplitPartsFree(s: string, sep: char)
    ensures forall i :: 0 <= i < |Split(s, sep)| ==> sep !in Split(s, sep)[i]
    decreases |s|
  {
    var i := IndexOf(s, sep);
    if i >= 0 {
      var tail := Split(s[i + 1..], sep);
      SplitPartsFree(s[i + 1..], sep);
      assert Split(s, sep) == [s[..i]] + tail;
      forall j | 0 <= j < |Split(s, sep)| ensures sep !in Split(s, sep)[j] {
        if j > 0 {
          assert Split(s, sep)[j] == tail[j - 1];
        }
      }
    }
  }

  /** `Array.prototype.join`, the inverse of `Split`. */
  function Join(parts: seq<string>, sep: char): string
    requires |parts| >= 1
  {
    if |parts| == 1 then parts[0] else parts[0] + [sep] + Join(parts[1..], sep)
  }

  /** Joining a part onto a non-empty list puts the separator between them. */
  lemma JoinCons(p: string, tail: seq<string>, sep: char)
    requires |tail| >= 1
    ensures Join([p] + tail, sep) == p + [sep] + Join(tail, sep)
  {
    assert ([p] + tail)[1..] == tail;
  }

  /** Splitting at the first separator. */
  lemma SplitAt(s: string, sep: char)
    requires IndexOf(s, sep) >= 0
    ensures Split(s, sep) == [s[..IndexOf(s, sep)]] + Split(s[IndexOf(s, sep) + 1..], sep)
  {
  }

  /** A string is the text before its first separator, the separator, and the rest. */
  lemma AroundFirst(s: string, sep: char)
    requires IndexOf(s, sep) >= 0
    ensures s == s[..IndexOf(s, sep)] + [sep] + s[IndexOf(s, sep) + 1..]
  {
    var i := IndexOf(s, sep);
    assert s == s[..i] + [s[i]] + s[i + 1..];
  }

  lemma {:induction false} JoinSplit(s: string, sep: char)
    ensures Join(Split(s, sep), sep) == s
    decreases |s|
  {
    var i := IndexOf(s, sep);
    if i >= 0 {
      SplitAt(s, sep);
      AroundFirst(s, sep);
      JoinSplit(s[i + 1..], sep);
      JoinCons(s[..i], Split(s[i + 1..], sep), sep);
    }
  }

  lemma SplitCons(p: string, sep: char, rest: string)
    requires sep !in p
    ensures Split(p + [sep] + rest, sep) == [p] + Split(rest, sep)
  {
    var s := p + [sep] + rest;
    IndexOfAt(p, sep, rest);
    assert s[..|p|] == p;
    assert s[|p| + 1..] == rest;
  }

  lemma {:induction false} SplitJoin(parts: seq<string>, sep: char)
    requires |parts| >= 1
    requires forall i :: 0 <= i < |parts| ==> sep !in parts[i]
    ensures Split(Join(parts, sep), sep) == parts
  {
    if |parts| > 1 {
      var tail := parts[1..];
      assert forall i :: 0 <= i < |tail| ==> tail[i] == parts[i + 1];
      SplitJoin(tail, sep);
      assert sep !in parts[0];
      SplitCons(parts[0], sep, Join(tail, sep));
      assert parts == [parts[0]] + tail;
    }
  }

  /** Lexicographic order, the order Redis gives members of equal score. */
  predicate LexLess(a: string, b: string)
    decreases |a|
  {
    |b| > 0 && (|a| == 0 || a[0] < b[0] || (a[0] == b[0] && LexLess(a[1..], b[1..])))
  }

  /** ASCII case folding; characters outside A-Z are unchanged. */
  function LowerChar(c: char): char {
    if 'A' <= c <= 'Z' then (c as int + 32) as char else c
  }

  function ToLower(s: string): string {
    seq(|s|, i requires 0 <= i < |s| => LowerChar(s[i]))
  }

  /** `Array.from(new Set(s))`: first occurrences, in order. */
  function Dedup(s: seq<string>): (r: seq<string>)
    ensures NoDup(r)
    ensures forall x :: x in r <==> x in s
  {
    if s == [] then []
    else
      var d := Dedup(s[..|s| - 1]);
      var x := s[|s| - 1];
      assert forall y :: y in s <==> y in s[..|s| - 1] || y == x by {
        assert s == s[..|s| - 1] + [x];
      }
      if x in d then d else d + [x]
  }

  lemma {:induction false} DedupOfNoDup(s: seq<string>)
    requires NoDup(s)
    ensures Dedup(s) == s
  {
    if s != [] {
      var init := s[..|s| - 1];
      assert NoDup(init);
      DedupOfNoDup(init);
      assert s[|s| - 1] !in init;
      assert s == init + [s[|s| - 1]];
    }
  }
}
